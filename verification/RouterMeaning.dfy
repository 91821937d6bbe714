/** What a lookup answers, said of the registered routes and of the texts alone. */
module RouterMeaning {
  import opened OptionType
  import opened RouterSpec
  import opened RouterTheorems
  import opened RouterTraces
  import opened RouterClaims

  // ---- what is in the table -----------------------------------------------------------------------------

  /** Every entry is a registered route under its own method and the pattern of its own path. */
  ghost predicate Genuine(table: Table, routes: seq<Route>) {
    forall k :: k in table ==> table[k] in routes && table[k].verb == k.0 && PatternOf(table[k]) == k.1 && WellFormed(k.1)
  }

  lemma {:induction false} TableIsGenuine(strict: bool, routes: seq<Route>)
    ensures Genuine(RegisterAll(strict, routes).table, routes)
  {
    hide WellFormed, PatternOf, Walked, Ambiguous, Register, Genuine;
    if routes == [] {
      NothingIsGenuine(routes);
    } else {
      var n := |routes| - 1;
      var reg, route := RegisterAll(strict, routes[..n]), routes[n];
      TableIsGenuine(strict, routes[..n]);
      RegisterIs(reg, strict, route);
      assert routes == routes[..n] + [route];
      GenuineMore(reg.table, Register(reg, strict, route).0.table, routes[..n], route);
    }
  }

  lemma NothingIsGenuine(routes: seq<Route>)
    ensures Genuine(map[], routes)
  {}

  lemma GenuineMore(table: Table, after: Table, routes: seq<Route>, route: Route)
    requires Genuine(table, routes)
    requires after == table || (WellFormed(PatternOf(route)) && after == table[(route.verb, PatternOf(route)) := route])
    ensures Genuine(after, routes + [route])
  {
    hide WellFormed, PatternOf;
  }

  /** What an attempt walks through: everything, or what lies before its first misplaced wildcard. */
  lemma {:induction false} WalkedMeans(p: Pattern) returns (n: nat)
    ensures n <= |p| && Walked(p) == p[..n]
    ensures forall i :: 0 <= i < n ==> p[i] != Wild || i == |p| - 1
    ensures n < |p| ==> p[n] == Wild && n < |p| - 1
  {
    if p == [] || (p[0] == Wild && |p| > 1) {
      n := 0;
    } else {
      var k := WalkedMeans(p[1..]);
      n := k + 1;
      assert p[..n] == [p[0]] + p[1..][..k];
      assert forall i :: 0 < i < n ==> p[i] == p[1..][i - 1];
    }
  }

  // ---- which paths a pattern matches ---------------------------------------------------------------------

  /** Position by position: a literal is its text, a parameter is anything, a final wildcard is one segment or more. */
  predicate Covers(p: Pattern, segs: seq<string>) {
    && (if p != [] && p[|p| - 1] == Wild then |segs| >= |p| else |segs| == |p|)
    && forall i :: 0 <= i < |p| ==>
         (p[i].Lit? ==> p[i].text == segs[i]) && (p[i] == Wild ==> i == |p| - 1)
  }

  lemma {:induction false} MatchesMeans(p: Pattern, segs: seq<string>)
    ensures Matches(p, segs) <==> Covers(p, segs)
  {
    if p != [] && segs != [] {
      MatchesMeans(p[1..], segs[1..]);
      CoversTail(p, segs);
    }
  }

  lemma CoversTail(p: Pattern, segs: seq<string>)
    requires p != [] && segs != []
    ensures p[0] != Wild ==> (Covers(p, segs) <==> (p[0].Lit? ==> p[0].text == segs[0]) && Covers(p[1..], segs[1..]))
  {
    if p[0] != Wild {
      assert |p| > 1 ==> p[1..][|p| - 2] == p[|p| - 1];
      if Covers(p, segs) {
        assert forall i :: 0 <= i < |p| - 1 ==> p[1..][i] == p[i + 1] && segs[1..][i] == segs[i + 1];
      }
      if (p[0].Lit? ==> p[0].text == segs[0]) && Covers(p[1..], segs[1..]) {
        forall i | 0 <= i < |p| ensures (p[i].Lit? ==> p[i].text == segs[i]) && (p[i] == Wild ==> i == |p| - 1) {
          if i > 0 { assert p[i] == p[1..][i - 1] && segs[i] == segs[1..][i - 1]; }
        }
      }
    }
  }

  // ---- which of two patterns is preferred -------------------------------------------------------------------

  /** Some attempt walked through `a` before any attempt walked through `b`. */
  ghost predicate Older(walks: seq<Pattern>, a: Pattern, b: Pattern) {
    exists n :: 0 <= n < |walks| && a <= walks[n] && forall k :: 0 <= k <= n ==> !(b <= walks[k])
  }

  /** The patterns first differ at `i`, and there a literal stands against none, a parameter against a wildcard, or the older of two parameters. */
  ghost predicate PreferredAt(walks: seq<Pattern>, prefix: Pattern, p: Pattern, q: Pattern, i: nat) {
    && i < |p| && i < |q| && p[..i] == q[..i] && p[i] != q[i]
    && match p[i]
       case Lit(_) => !q[i].Lit?
       case Param(_) => q[i].Wild? || (q[i].Param? && Older(walks, prefix + p[..i + 1], prefix + q[..i + 1]))
       case Wild => false
  }

  ghost predicate Preferred(walks: seq<Pattern>, prefix: Pattern, p: Pattern, q: Pattern) {
    exists i: nat :: PreferredAt(walks, prefix, p, q, i)
  }

  lemma OlderMeans(walks: seq<Pattern>, a: Pattern, b: Pattern)
    ensures FirstWalk(walks, a) < FirstWalk(walks, b) <==> Older(walks, a, b)
  {
    var n, k := FirstWalk(walks, a), FirstWalk(walks, b);
    if n < k { assert a <= walks[n]; }
    if Older(walks, a, b) {
      var i :| 0 <= i < |walks| && a <= walks[i] && forall j :: 0 <= j <= i ==> !(b <= walks[j]);
    }
  }

  lemma {:induction false} BetterMeans(walks: seq<Pattern>, prefix: Pattern, p: Pattern, q: Pattern)
    ensures Better(walks, prefix, p, q) <==> Preferred(walks, prefix, p, q)
    decreases |p|
  {
    if p != [] && q != [] {
      if p[0] == q[0] {
        BetterMeans(walks, prefix + [p[0]], p[1..], q[1..]);
        hide Better, Older;
        forall i: nat ensures PreferredAt(walks, prefix, p, q, i + 1) <==> PreferredAt(walks, prefix + [p[0]], p[1..], q[1..], i) {
          OneDeeper(walks, prefix, p, q, i);
        }
        forall i: nat | PreferredAt(walks, prefix, p, q, i) ensures i > 0 && PreferredAt(walks, prefix + [p[0]], p[1..], q[1..], i - 1) {
          OneDeeper(walks, prefix, p, q, i - 1);
        }
      } else {
        AtOnce(walks, prefix, p, q);
      }
    }
  }

  lemma OneDeeper(walks: seq<Pattern>, prefix: Pattern, p: Pattern, q: Pattern, i: nat)
    requires p != [] && q != [] && p[0] == q[0]
    ensures PreferredAt(walks, prefix, p, q, i + 1) <==> PreferredAt(walks, prefix + [p[0]], p[1..], q[1..], i)
  {
    hide Older;
    if i + 1 < |p| && i + 1 < |q| {
      Deeper(prefix, p, i);
      Deeper(prefix, q, i);
      assert p[..i + 1] == q[..i + 1] ==> p[1..][..i] == p[..i + 1][1..] && q[1..][..i] == q[..i + 1][1..];
    }
  }

  lemma NotLater(walks: seq<Pattern>, prefix: Pattern, p: Pattern, q: Pattern, i: nat)
    requires p != [] && q != [] && p[0] != q[0] && i > 0
    ensures !PreferredAt(walks, prefix, p, q, i)
  {
    if i <= |p| && i <= |q| { assert p[..i][0] == p[0] && q[..i][0] == q[0]; }
  }

  lemma AtOnce(walks: seq<Pattern>, prefix: Pattern, p: Pattern, q: Pattern)
    requires p != [] && q != [] && p[0] != q[0]
    ensures Before(walks, prefix, p[0], q[0]) <==> Preferred(walks, prefix, p, q)
  {
    assert p[..1] == [p[0]] && q[..1] == [q[0]] && p[..0] == q[..0];
    OlderMeans(walks, prefix + [p[0]], prefix + [q[0]]);
    hide Older, FirstWalk;
    forall i: nat | i > 0 ensures !PreferredAt(walks, prefix, p, q, i) { NotLater(walks, prefix, p, q, i); }
    assert Before(walks, prefix, p[0], q[0]) <==> PreferredAt(walks, prefix, p, q, 0);
  }

  // ---- the parameters a match hands out ------------------------------------------------------------------------

  /** The key a segment binds, if it binds one. */
  predicate Binds(g: Seg, key: string) {
    g == Param(key) || (g == Wild && key == "*")
  }

  predicate LastBinding(p: Pattern, key: string, i: nat) {
    i < |p| && Binds(p[i], key) && forall j :: i < j < |p| ==> !Binds(p[j], key)
  }

  predicate Unbound(p: Pattern, key: string) {
    forall i :: 0 <= i < |p| ==> !Binds(p[i], key)
  }

  /** The text bound at a position: one segment, or for a wildcard the whole rest. */
  function TextAt(p: Pattern, segs: seq<string>, i: nat): string
    requires i < |p| <= |segs|
  {
    if p[i] == Wild then Join(segs[i..]) else segs[i]
  }

  /** Each bound key has the text of its last position; other keys are as they were. */
  ghost predicate Bound(out: map<string, string>, p: Pattern, segs: seq<string>, params: map<string, string>) {
    && |p| <= |segs|
    && (forall key, i :: LastBinding(p, key, i) ==> key in params && params[key] == TextAt(p, segs, i))
    && (forall key :: Unbound(p, key) ==> (key in params <==> key in out) && (key in out ==> params[key] == out[key]))
  }

  lemma {:induction false} ParamsMean(out: map<string, string>, p: Pattern, segs: seq<string>)
    requires Matches(p, segs)
    ensures Bound(out, p, segs, WriteParams(out, Bindings(p, segs)))
    decreases |p|
  {
    if p != [] {
      if p[0] == Wild {
        WildBinds(out, segs);
        assert p == [Wild];
      } else {
        var out' := if p[0].Param? then out[p[0].key := segs[0]] else out;
        ParamsMean(out', p[1..], segs[1..]);
        WriteOne(out, p, segs);
        var params := WriteParams(out', Bindings(p[1..], segs[1..]));
        hide WriteParams, Bindings, Matches;
        BoundOneMore(out, out', p, segs, params);
      }
    }
  }

  lemma WildBinds(out: map<string, string>, segs: seq<string>)
    requires segs != []
    ensures Bound(out, [Wild], segs, WriteParams(out, [("*", Join(segs))]))
  {
    assert [("*", Join(segs))][1..] == [];
    assert segs[0..] == segs;
    assert forall key :: Unbound([Wild], key) ==> !Binds([Wild][0], key);
  }

  lemma WriteOne(out: map<string, string>, p: Pattern, segs: seq<string>)
    requires p != [] && p[0] != Wild && Matches(p, segs)
    ensures Matches(p[1..], segs[1..])
    ensures WriteParams(out, Bindings(p, segs)) ==
      WriteParams(if p[0].Param? then out[p[0].key := segs[0]] else out, Bindings(p[1..], segs[1..]))
  {
    if p[0].Param? { assert ([(p[0].key, segs[0])] + Bindings(p[1..], segs[1..]))[1..] == Bindings(p[1..], segs[1..]); }
  }

  lemma LastBehind(p: Pattern, key: string, i: nat)
    requires p != []
    ensures LastBinding(p[1..], key, i) <==> LastBinding(p, key, i + 1)
    ensures Unbound(p, key) <==> !Binds(p[0], key) && Unbound(p[1..], key)
    ensures LastBinding(p, key, 0) <==> Binds(p[0], key) && Unbound(p[1..], key)
  {
    assert forall j :: 0 < j < |p| ==> p[j] == p[1..][j - 1];
    assert forall j :: 0 <= j < |p| - 1 ==> p[1..][j] == p[j + 1];
  }

  lemma BoundOneMore(out: map<string, string>, out': map<string, string>, p: Pattern, segs: seq<string>, params: map<string, string>)
    requires p != [] && segs != [] && p[0] != Wild && out' == if p[0].Param? then out[p[0].key := segs[0]] else out
    requires Bound(out', p[1..], segs[1..], params)
    ensures Bound(out, p, segs, params)
  {
    hide Unbound, Join;
    forall key, i: nat | LastBinding(p, key, i) ensures key in params && params[key] == TextAt(p, segs, i) {
      LastBehind(p, key, if i > 0 then i - 1 else 0);
      if i > 0 { assert segs[1..][i - 1..] == segs[i..]; }
    }
    forall key | Unbound(p, key) ensures (key in params <==> key in out) && (key in out ==> params[key] == out[key]) {
      LastBehind(p, key, 0);
    }
  }

  lemma {:induction false} LastExists(p: Pattern, key: string) returns (i: nat)
    requires !Unbound(p, key)
    ensures LastBinding(p, key, i)
  {
    LastBehind(p, key, 0);
    if Unbound(p[1..], key) {
      i := 0;
    } else {
      var j := LastExists(p[1..], key);
      LastBehind(p, key, j);
      i := j + 1;
    }
  }

  lemma BoundIsUnique(out: map<string, string>, p: Pattern, segs: seq<string>, a: map<string, string>, b: map<string, string>)
    requires Bound(out, p, segs, a) && Bound(out, p, segs, b)
    ensures a == b
  {
    hide Unbound, LastBinding, TextAt;
    forall key ensures (key in a <==> key in b) && (key in a ==> a[key] == b[key]) {
      if !Unbound(p, key) { var i := LastExists(p, key); }
    }
  }

  // ---- the whole answer -------------------------------------------------------------------------------------------

  /** The route that a pattern serves a method with: its own, and for HEAD without its own that of GET. */
  predicate ServedBy(table: Table, m: Method, p: Pattern, route: Route) {
    || ((m, p) in table && route == table[(m, p)])
    || (m == HEAD && (HEAD, p) !in table && (GET, p) in table && route == table[(GET, p)])
  }

  /** `a` is the answer, in terms of the table and the walks made. */
  ghost predicate Means(reg: Registry, m: Method, path: string, out: map<string, string>, a: Answer) {
    var segs := PathSegments(path);
    match a
    case Found(route, params) =>
      exists p ::
        && ServedBy(reg.table, m, p, route) && Covers(p, segs) && Bound(out, p, segs, params)
        && forall q, r :: ServedBy(reg.table, m, q, r) && Covers(q, segs) && q != p ==> Preferred(reg.walks, [], p, q)
    case MethodNotAllowed(allowed) =>
      && allowed != {}
      && (forall q, r :: ServedBy(reg.table, m, q, r) ==> !Covers(q, segs))
      && forall x :: x in allowed <==> RegisteredFor(reg.table, x, segs) || (x == HEAD && RegisteredFor(reg.table, GET, segs))
    case NotFound => forall x :: !RegisteredFor(reg.table, x, segs)
  }

  ghost predicate RegisteredFor(table: Table, m: Method, segs: seq<string>) {
    exists p :: (m, p) in table && Covers(p, segs)
  }

  lemma ServingMeans(table: Table, p: Pattern, m: Method, route: Route)
    ensures Serving(table, p, m) == Some(route) <==> ServedBy(table, m, p, route)
  {}

  lemma CandidateMeans(table: Table, segs: seq<string>, m: Method, p: Pattern)
    ensures Candidate(table, [], segs, m, p) <==> Covers(p, segs) && exists r :: ServedBy(table, m, p, r)
  {
    assert [] + p == p;
    MatchesMeans(p, segs);
    forall r ensures Serving(table, p, m) == Some(r) <==> ServedBy(table, m, p, r) { ServingMeans(table, p, m, r); }
    hide Covers, Matches, ServedBy;
    if Serving(table, p, m).Some? { assert ServedBy(table, m, p, Serving(table, p, m).value); }
  }

  lemma BestMeans(reg: Registry, segs: seq<string>, m: Method, p: Pattern)
    ensures Best(reg, [], segs, m, p) <==>
      && (Covers(p, segs) && exists r :: ServedBy(reg.table, m, p, r))
      && forall q, r :: ServedBy(reg.table, m, q, r) && Covers(q, segs) && q != p ==> Preferred(reg.walks, [], p, q)
  {
    hide Covers, ServedBy, Preferred, Candidate;
    forall q ensures Candidate(reg.table, [], segs, m, q) <==> Covers(q, segs) && exists r :: ServedBy(reg.table, m, q, r) {
      CandidateMeans(reg.table, segs, m, q);
    }
    forall q ensures Better(reg.walks, [], p, q) <==> Preferred(reg.walks, [], p, q) { BetterMeans(reg.walks, [], p, q); }
  }

  lemma OfferedMeans(table: Table, segs: seq<string>, m: Method)
    ensures Offered(table, [], segs, m) <==> RegisteredFor(table, m, segs)
  {
    hide Covers, Matches;
    forall q ensures Matches(q, segs) <==> Covers(q, segs) { MatchesMeans(q, segs); }
    if Offered(table, [], segs, m) {
      var q :| (m, [] + q) in table && Matches(q, segs);
      assert [] + q == q;
    }
    if RegisteredFor(table, m, segs) {
      var q :| (m, q) in table && Covers(q, segs);
      assert [] + q == q;
    }
  }

  lemma FoundMeans(reg: Registry, m: Method, path: string, out: map<string, string>, route: Route, params: map<string, string>)
    ensures Answers(reg, m, path, out, Found(route, params)) <==> Means(reg, m, path, out, Found(route, params))
  {
    var segs := PathSegments(path);
    hide Covers, ServedBy, Preferred, PathSegments, Best, Bound;
    if Answers(reg, m, path, out, Found(route, params)) {
      var p := FoundHasCandidate(reg, m, path, out, Found(route, params));
      BestMeans(reg, segs, m, p);
      ServingMeans(reg.table, p, m, route);
      BestMatches(reg, segs, m, p);
      ParamsMean(out, p, segs);
    }
    if Means(reg, m, path, out, Found(route, params)) {
      var p :| ServedBy(reg.table, m, p, route) && Covers(p, segs) && Bound(out, p, segs, params)
        && forall q, r :: ServedBy(reg.table, m, q, r) && Covers(q, segs) && q != p ==> Preferred(reg.walks, [], p, q);
      BestMeans(reg, segs, m, p);
      ServingMeans(reg.table, p, m, route);
      MatchesMeans(p, segs);
      ParamsMean(out, p, segs);
      BoundIsUnique(out, p, segs, params, WriteParams(out, Bindings(p, segs)));
    }
  }

  lemma BestMatches(reg: Registry, segs: seq<string>, m: Method, p: Pattern)
    requires Best(reg, [], segs, m, p)
    ensures Matches(p, segs)
  {}

  lemma OtherwiseMeans(reg: Registry, m: Method, path: string, out: map<string, string>, a: Answer)
    requires !a.Found?
    ensures Answers(reg, m, path, out, a) <==> Means(reg, m, path, out, a)
  {
    var segs := PathSegments(path);
    hide Covers, ServedBy, PathSegments, Offered, RegisteredFor, Candidate;
    forall x ensures Offered(reg.table, [], segs, x) <==> RegisteredFor(reg.table, x, segs) { OfferedMeans(reg.table, segs, x); }
    forall q ensures Candidate(reg.table, [], segs, m, q) <==> Covers(q, segs) && exists r :: ServedBy(reg.table, m, q, r) {
      CandidateMeans(reg.table, segs, m, q);
    }
  }

  /**
    A lookup finds the route that the preferred one of the matching patterns serves the method with,
    and binds the texts at its parameters; without any it names exactly the methods registered for
    matching patterns, HEAD with GET; without those it finds nothing.
   */
  lemma LookupMeans(reg: Registry, m: Method, path: string, out: map<string, string>, a: Answer)
    ensures Answers(reg, m, path, out, a) <==> Means(reg, m, path, out, a)
  {
    hide Answers, Means;
    if a.Found? { FoundMeans(reg, m, path, out, a.route, a.params); } else { OtherwiseMeans(reg, m, path, out, a); }
  }

  // ---- registration -------------------------------------------------------------------------------------------------

  /** A segment after a colon is a parameter, a lone star a wildcard, any other text itself. */
  lemma PatternMeans(route: Route, i: nat)
    requires i < |PathSegments(route.path)|
    ensures var seg, p := PathSegments(route.path)[i], PatternOf(route);
      && |p| == |PathSegments(route.path)|
      && (IsParam(seg) ==> p[i].Param? && ":" + p[i].key == seg)
      && (p[i] == Wild <==> seg == "*")
      && (!IsParam(seg) && seg != "*" ==> p[i] == Lit(seg))
  {
    var seg := PathSegments(route.path)[i];
    if IsParam(seg) { assert ":" + seg[1..] == seg; }
  }

  /** The same method and the same segments, except that parameters may be named differently. */
  predicate Alike(a: Route, b: Route) {
    var s, t := Segments(a.path, 0), Segments(b.path, 0);
    a.verb == b.verb && |s| == |t| && forall i :: 0 <= i < |s| ==> s[i] == t[i] || (IsParam(s[i]) && IsParam(t[i]))
  }

  lemma BlankMeans(a: string, b: string)
    ensures Blank(a) == Blank(b) <==> a == b || (IsParam(a) && IsParam(b))
  {
    if Blank(a) == Blank(b) && !IsParam(b) { SameBlank(a, b); }
    if Blank(a) == Blank(b) && !IsParam(a) { SameBlank(b, a); }
  }

  lemma NormMeans(a: Route, b: Route)
    ensures Norm(a.verb, a.path) == Norm(b.verb, b.path) <==> Alike(a, b)
  {
    var s, t := Segments(a.path, 0), Segments(b.path, 0);
    if Norm(a.verb, a.path) == Norm(b.verb, b.path) { NormParts(a, b); }
    hide Segments, Join, Blank, IsParam;
    forall i | 0 <= i < |s| && i < |t| ensures Blanked(s)[i] == Blanked(t)[i] <==> s[i] == t[i] || (IsParam(s[i]) && IsParam(t[i])) {
      BlankMeans(s[i], t[i]);
    }
    if Alike(a, b) { assert Blanked(s) == Blanked(t); }
  }

  /** The first attempt alike to `l`, if there was one. */
  ghost predicate FirstAlike(routes: seq<Route>, l: Route, i: nat) {
    i < |routes| && Alike(routes[i], l) && forall j :: 0 <= j < i ==> !Alike(routes[j], l)
  }

  /** Each form is kept for the path that was attempted in it first. */
  ghost predicate Keeps(routes: seq<Route>, n: map<string, string>, l: Route) {
    var norm := Norm(l.verb, l.path);
    && (norm in n ==> exists i: nat :: FirstAlike(routes, l, i) && n[norm] == routes[i].path)
    && (norm !in n ==> forall i :: 0 <= i < |routes| ==> !Alike(routes[i], l))
  }

  lemma OnlyTheEmptyPath(a: Route, b: Route)
    requires Alike(a, b) && a.path == ""
    ensures b.path == ""
  {
    PathSegmentsAre(b.path);
    EmptyPath();
    var t := Segments(b.path, 0);
    assert t == [t[0]];
    JoinIs(t);
  }

  lemma FirstStays(routes: seq<Route>, r: Route, l: Route, i: nat)
    requires FirstAlike(routes, l, i)
    ensures FirstAlike(routes + [r], l, i)
  {
    hide Alike;
  }

  lemma FirstNow(routes: seq<Route>, r: Route, l: Route)
    requires Alike(r, l) && forall i :: 0 <= i < |routes| ==> !Alike(routes[i], l)
    ensures FirstAlike(routes + [r], l, |routes|)
  {
    hide Alike;
  }

  lemma KeepsStep(reg: Registry, routes: seq<Route>, r: Route, l: Route)
    requires Keeps(routes, reg.normalized, l)
    ensures Keeps(routes + [r], Register(reg, true, r).0.normalized, l)
  {
    var norm, after := Norm(l.verb, l.path), Register(reg, true, r).0;
    NormMeans(r, l);
    RegisterIs(reg, true, r);
    NormalizedAfter(reg, r);
    hide Register, Norm, Alike, FirstAlike;
    if norm in reg.normalized {
      var i := KeptFor(routes, reg.normalized, l);
      FirstStays(routes, r, l, i);
      assert (routes + [r])[i] == routes[i];
      if Alike(r, l) { FirstPath(routes, r, l, i); }
    } else if Alike(r, l) {
      FirstNow(routes, r, l);
    }
  }

  lemma KeptFor(routes: seq<Route>, n: map<string, string>, l: Route) returns (i: nat)
    requires Keeps(routes, n, l) && Norm(l.verb, l.path) in n
    ensures i < |routes| && FirstAlike(routes, l, i) && n[Norm(l.verb, l.path)] == routes[i].path
  {
    hide Norm, Alike;
    i :| FirstAlike(routes, l, i) && n[Norm(l.verb, l.path)] == routes[i].path;
  }

  /** Two attempts alike to the same one are alike, so only the empty path can stand for another. */
  lemma FirstPath(routes: seq<Route>, r: Route, l: Route, i: nat)
    requires FirstAlike(routes, l, i) && Alike(r, l)
    ensures routes[i].path == "" ==> r.path == ""
  {
    NormMeans(routes[i], l);
    NormMeans(r, l);
    NormMeans(routes[i], r);
    if routes[i].path == "" { OnlyTheEmptyPath(routes[i], r); }
  }

  lemma NormalizedAfter(reg: Registry, r: Route)
    ensures Register(reg, true, r).0.normalized ==
      if Ambiguous(reg, r) then reg.normalized else reg.normalized[Norm(r.verb, r.path) := r.path]
  {
    hide Norm, ParsePattern, Walked, WellFormed;
  }

  lemma {:induction false} KeepsAlways(routes: seq<Route>, l: Route)
    ensures Keeps(routes, RegisterAll(true, routes).normalized, l)
  {
    hide Keeps, Register;
    if routes == [] {
      assert Keeps([], RegisterAll(true, []).normalized, l) by { KeepsNothing(l); }
    } else {
      var n := |routes| - 1;
      KeepsAlways(routes[..n], l);
      KeepsStep(RegisterAll(true, routes[..n]), routes[..n], routes[n], l);
      assert routes[..n] + [routes[n]] == routes;
    }
  }

  lemma KeepsNothing(l: Route)
    ensures Keeps([], RegisterAll(true, []).normalized, l)
  {}

  /**
    How an attempt ends in the default mode: a conflict exactly when the first attempt of the same form
    had another path; otherwise an error exactly for a misplaced wildcard; otherwise a collision exactly
    when the same method has a registered route of the same pattern; otherwise it is registered.
   */
  lemma OutcomeMeans(routes: seq<Route>, l: Route)
    ensures var reg, p := RegisterAll(true, routes), PatternOf(l);
      Register(reg, true, l).1 ==
        if exists i: nat :: FirstAlike(routes, l, i) && routes[i].path != l.path then Conflict
        else if exists i :: 0 <= i < |p| - 1 && p[i] == Wild then BadWildcard
        else if (l.verb, p) in reg.table then Collision else Registered
  {
    var reg := RegisterAll(true, routes);
    KeepsAlways(routes, l);
    RegisterIs(reg, true, l);
    hide RegisterAll, Register, Norm, PatternOf;
    forall i: nat, j: nat | FirstAlike(routes, l, i) && FirstAlike(routes, l, j) ensures i == j { OnlyOneFirst(routes, l, i, j); }
    forall i: nat | FirstAlike(routes, l, i) && routes[i].path == "" ensures l.path == "" { OnlyTheEmptyPath(routes[i], l); }
    hide FirstAlike, Alike;
  }

  lemma OnlyOneFirst(routes: seq<Route>, l: Route, i: nat, j: nat)
    requires FirstAlike(routes, l, i) && FirstAlike(routes, l, j)
    ensures i == j
  {
    hide Alike;
  }
}
