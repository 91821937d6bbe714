/** Rejected registrations as texts: the exact conditions in each conflict mode, and inputs that fail them. */
module RouterClaims {
  import opened OptionType
  import opened RouterSpec
  import opened RouterTheorems
  import opened RouterTraces

  // ---- paths from segments ---------------------------------------------------------------------------

  predicate Slashless(segs: seq<string>) {
    forall i :: 0 <= i < |segs| ==> '/' !in segs[i]
  }

  lemma SegmentEndIs(path: string, pos: nat, end: nat)
    requires pos <= end <= |path| && '/' !in path[pos..end] && (end == |path| || path[end] == '/')
    ensures SegmentEnd(path, pos) == end
  {
    var e := SegmentEnd(path, pos);
    assert forall k :: pos <= k < end ==> path[k] == path[pos..end][k - pos];
    assert forall k :: pos <= k < e ==> path[k] == path[pos..e][k - pos];
  }

  lemma FirstSegment(path: string, pos: nat, seg: string)
    requires pos + |seg| <= |path| && path[pos..pos + |seg|] == seg && '/' !in seg
    requires pos + |seg| == |path| || path[pos + |seg|] == '/'
    ensures Segments(path, pos) == [seg] + Segments(path, pos + |seg| + 1)
  {
    SegmentEndIs(path, pos, pos + |seg|);
  }

  lemma SlashlessTail(segs: seq<string>)
    requires segs != [] && Slashless(segs)
    ensures '/' !in segs[0] && Slashless(segs[1..])
  {
    forall i | 0 <= i < |segs| - 1 ensures '/' !in segs[1..][i] { assert segs[1..][i] == segs[i + 1]; }
  }

  /** Splitting undoes joining. */
  lemma {:induction false} SegmentsOfJoin(front: string, segs: seq<string>)
    requires segs != [] && Slashless(segs)
    ensures Segments(front + Join(segs), |front|) == segs
    decreases |segs|
  {
    hide *;
    var path, end := front + Join(segs), |front| + |segs[0]|;
    SlashlessTail(segs);
    JoinIs(segs);
    if |segs| == 1 {
      assert path[|front|..end] == segs[0] && |path| == end;
      FirstSegment(path, |front|, segs[0]);
      NoSegments(path);
      assert segs == [segs[0]] + [];
    } else {
      var front' := front + segs[0] + "/";
      Reassociate(front, segs[0], Join(segs[1..]));
      FirstSegment(path, |front|, segs[0]);
      SegmentsOfJoin(front', segs[1..]);
      assert segs == [segs[0]] + segs[1..];
    }
  }

  lemma JoinIs(segs: seq<string>)
    requires segs != []
    ensures Join(segs) == if |segs| == 1 then segs[0] else segs[0] + "/" + Join(segs[1..])
  {}

  lemma NoSegments(path: string)
    ensures Segments(path, |path| + 1) == []
  {}

  lemma Reassociate(front: string, seg: string, rest: string)
    ensures var path := front + (seg + "/" + rest);
      && path == front + seg + "/" + rest && |front + seg + "/"| == |front| + |seg| + 1
      && |front| + |seg| < |path| && path[|front|..|front| + |seg|] == seg && path[|front| + |seg|] == '/'
  {}

  lemma {:induction false} SegmentsAreSlashless(path: string, pos: nat)
    ensures Slashless(Segments(path, pos)) && (pos <= |path| ==> Segments(path, pos) != [])
    decreases |path| + 1 - pos
  {
    if pos <= |path| {
      SegmentsAreSlashless(path, SegmentEnd(path, pos) + 1);
    }
  }

  lemma SlashedPath(segs: seq<string>)
    requires segs != [] && Slashless(segs)
    ensures PathSegments("/" + Join(segs)) == segs
  {
    SegmentsOfJoin("/", segs);
  }

  lemma PathSegmentsAre(path: string)
    ensures var segs := Segments(path, 0);
      && Slashless(segs) && segs != []
      && PathSegments(path) == (if |segs| >= 2 && segs[0] == "" then segs[1..] else segs)
      && Join(segs) == path
  {
    var segs := Segments(path, 0);
    JoinSegments(path, 0);
    SegmentsAreSlashless(path, 0);
    var end := SegmentEnd(path, 0);
    if |path| > 0 && path[0] == '/' {
      SegmentEndIs(path, 0, 0);
      SegmentsAreSlashless(path, 1);
      assert segs[1..] == Segments(path, 1);
    } else if path != "" {
      assert end > 0 && segs[0] != "";
    } else {
      assert segs == [""];
    }
  }

  // ---- the normalized form -----------------------------------------------------------------------------

  lemma NamesAndRest(m: Method, m': Method, rest: string, rest': string)
    requires MethodName(m) + " " + rest == MethodName(m') + " " + rest'
    ensures m == m' && rest == rest'
  {
    var s, s' := MethodName(m) + " " + rest, MethodName(m') + " " + rest';
    assert s[0] == MethodName(m)[0] && s[1] == MethodName(m)[1];
    assert s'[0] == MethodName(m')[0] && s'[1] == MethodName(m')[1];
    assert m == m';
    var n := |MethodName(m)| + 1;
    assert s[n..] == rest && s'[n..] == rest';
  }

  lemma BlankedSlashless(segs: seq<string>)
    requires Slashless(segs)
    ensures Slashless(Blanked(segs))
  {}

  /** Equal normalized forms: the same method and the same segments, parameter names aside. */
  lemma NormParts(a: Route, b: Route)
    requires Norm(a.verb, a.path) == Norm(b.verb, b.path)
    ensures a.verb == b.verb && Blanked(Segments(a.path, 0)) == Blanked(Segments(b.path, 0))
  {
    var s, t := Segments(a.path, 0), Segments(b.path, 0);
    NamesAndRest(a.verb, b.verb, Join(Blanked(s)), Join(Blanked(t)));
    PathSegmentsAre(a.path);
    PathSegmentsAre(b.path);
    BlankedSlashless(s);
    BlankedSlashless(t);
    hide Join, Blanked, Segments;
    SegmentsOfJoin("", Blanked(s));
    SegmentsOfJoin("", Blanked(t));
    assert "" + Join(Blanked(s)) == Join(Blanked(s)) && "" + Join(Blanked(t)) == Join(Blanked(t));
  }

  // ---- matching, position by position ------------------------------------------------------------------

  /** No wildcard, and each literal stands where its text stands. */
  predicate Fits(p: Pattern, segs: seq<string>) {
    |p| == |segs| && forall i :: 0 <= i < |p| ==> p[i].Param? || p[i] == Lit(segs[i])
  }

  lemma {:induction false} FitsMatches(p: Pattern, segs: seq<string>)
    requires Fits(p, segs)
    ensures Matches(p, segs)
  {
    if p != [] {
      assert Fits(p[1..], segs[1..]) by {
        forall i | 0 <= i < |p| - 1 ensures p[1..][i].Param? || p[1..][i] == Lit(segs[1..][i]) {
          assert p[1..][i] == p[i + 1] && segs[1..][i] == segs[i + 1];
        }
      }
      FitsMatches(p[1..], segs[1..]);
    }
  }

  /** A pattern matches a path through each of its nodes that is not a wildcard. */
  lemma {:induction false} MatchesFits(p: Pattern, segs: seq<string>, n: nat)
    requires Matches(p, segs) && 1 <= n <= |p| && p[n - 1] != Wild
    ensures n <= |segs| && Fits(p[..n], segs[..n])
    decreases n
  {
    if n > 1 {
      MatchesFits(p[1..], segs[1..], n - 1);
      var a, b := p[1..][..n - 1], segs[1..][..n - 1];
      forall i | 0 <= i < n ensures p[..n][i].Param? || p[..n][i] == Lit(segs[..n][i]) {
        if i > 0 { assert p[..n][i] == a[i - 1] && segs[..n][i] == b[i - 1]; }
      }
    }
  }

  // ---- the warning mode: no conflicts are refused ---------------------------------------------------------

  /** The attempt made this parameter node. */
  predicate NewNode(reg: Registry, bad: Route, u: Pattern) {
    u <= Walked(PatternOf(bad)) && u != [] && u[|u| - 1].Param? && Unwalked(reg.walks, u)
  }

  /** A request gets as far as the node that the attempt made, and no preferred route answers it. */
  ghost predicate Open(reg: Registry, bad: Route, u: Pattern, m: Method, path: string) {
    var segs := PathSegments(path);
    NewNode(reg, bad, u) && |u| <= |segs| && Matches(u, segs[..|u|]) && Undecided(reg, u, m, segs)
  }

  lemma {:induction false} FreshKey(walks: seq<Pattern>, prefix: Pattern, n: nat) returns (k: string)
    ensures |k| > n && '/' !in k && Unwalked(walks, prefix + [Param(k)])
  {
    if walks == [] {
      k := seq(n + 1, i => 'x');
    } else {
      var w := walks[0];
      var n' := if |w| > |prefix| && w[|prefix|].Param? && |w[|prefix|].key| > n then |w[|prefix|].key| else n;
      k := FreshKey(walks[1..], prefix, n');
      assert (prefix + [Param(k)])[|prefix|] == Param(k);
    }
  }

  function Tail(n: nat): (segs: seq<string>)
    ensures |segs| == n && forall i :: 0 <= i < n ==> segs[i] == ":x"
  {
    if n == 0 then [] else [":x"] + Tail(n - 1)
  }

  /** A route whose pattern is that of some segments, then parameters only. */
  lemma RouteThrough(m: Method, front: seq<string>, n: nat, handler: int) returns (r: Route)
    requires front != [] && Slashless(front)
    ensures r.verb == m && r.handler == handler && |PatternOf(r)| == |front| + n
    ensures forall i :: 0 <= i < |front| ==> PatternOf(r)[i] == ParseSeg(front[i])
    ensures forall i :: |front| <= i < |front| + n ==> PatternOf(r)[i] == Param("x")
  {
    var segs := front + Tail(n);
    SlashedPath(segs);
    r := Route(m, "/" + Join(segs), handler);
    assert ":x"[1..] == "x";
  }

  lemma {:induction false} WalkedIsPrefix(p: Pattern)
    ensures Walked(p) <= p
  {
    if p != [] {
      WalkedIsPrefix(p[1..]);
      assert p == [p[0]] + p[1..];
    }
  }

  /** The segments of the rejected path up to one of its nodes. */
  lemma SegmentsTo(bad: Route, u: Pattern) returns (front: seq<string>)
    requires u <= Walked(PatternOf(bad)) && u != []
    ensures |front| == |u| && Slashless(front) && forall i :: 0 <= i < |u| ==> ParseSeg(front[i]) == u[i]
  {
    WalkedIsPrefix(PatternOf(bad));
    PathSegmentsAre(bad.path);
    hide Segments, Join, Walked;
    var segs := PathSegments(bad.path);
    front := segs[..|u|];
    forall i | 0 <= i < |u| ensures ParseSeg(front[i]) == u[i] { assert u[i] == PatternOf(bad)[i]; }
  }

  lemma FitsThrough(u: Pattern, p: Pattern, segs: seq<string>)
    requires 1 <= |u| <= |segs| == |p| && Fits(u, segs[..|u|])
    requires forall i :: 0 <= i < |p| ==> p[i].Param? || (i < |u| && p[i] == u[i])
    ensures WellFormed(p) && Matches(p, segs)
  {
    forall i | 0 <= i < |p| ensures p[i].Param? || p[i] == Lit(segs[i]) {
      if i < |u| { assert u[i].Param? || u[i] == Lit(segs[..|u|][i]); }
    }
    FitsMatches(p, segs);
  }

  /** The same way, but through another parameter at the end. */
  lemma OtherFront(front: seq<string>, u: Pattern, k: string) returns (front': seq<string>)
    requires 1 <= |front| == |u| && Slashless(front) && '/' !in k
    requires forall i :: 0 <= i < |u| ==> ParseSeg(front[i]) == u[i]
    ensures |front'| == |u| && Slashless(front') && ParseSeg(front'[|u| - 1]) == Param(k)
    ensures forall i :: 0 <= i < |u| - 1 ==> ParseSeg(front'[i]) == u[i]
  {
    front' := front[..|u| - 1] + [":" + k];
    assert (":" + k)[1..] == k;
  }

  lemma Parting(w: seq<Pattern>, u: Pattern, k: string, p: Pattern, q: Pattern)
    requires u != [] && u[|u| - 1].Param? && |u[|u| - 1].key| < |k| && Unwalked(w, u) && Unwalked(w, u[..|u| - 1] + [Param(k)])
    requires |u| <= |p| && |u| <= |q| && forall i :: 0 <= i < |u| - 1 ==> p[i] == u[i]
    requires p[|u| - 1] == Param(k) && forall i :: 0 <= i < |u| ==> q[i] == u[i]
    ensures PartAt(w, u, p, q)
  {
    assert p[..|u|] == u[..|u| - 1] + [Param(k)] && q[..|u|] == u;
    assert p[..|u| - 1] == u[..|u| - 1];
  }

  /** Two later routes that contend for an open node. */
  lemma Contenders(reg: Registry, bad: Route, u: Pattern, m: Method, path: string) returns (r: Route, s: Route)
    requires Open(reg, bad, u, m, path)
    ensures TellsApart(false, reg, bad, u, r, s, m, path)
  {
    var segs, n := PathSegments(path), |u|;
    hide PathSegments, Walked, Matches, Undecided, ParsePattern, WellFormed, PartAt, Unwalked, PatternOf, Fits, ParseSeg, Slashless;
    var front := SegmentsTo(bad, u);
    var k := FreshKey(reg.walks, u[..n - 1], |u[n - 1].key|);
    var front' := OtherFront(front, u, k);
    r := RouteThrough(m, front', |segs| - n, 0);
    s := RouteThrough(m, front, |segs| - n, 1);
    assert segs[..n][..n] == segs[..n] && u[..n] == u;
    MatchesFits(u, segs[..n], n);
    FitsThrough(u, PatternOf(r), segs);
    FitsThrough(u, PatternOf(s), segs);
    Parting(reg.walks, u, k, PatternOf(r), PatternOf(s));
  }

  lemma ToldApartIsOpen(reg: Registry, bad: Route, u: Pattern, r: Route, s: Route, m: Method, path: string)
    requires TellsApart(false, reg, bad, u, r, s, m, path)
    ensures Open(reg, bad, u, m, path)
  {
    var segs, q, n := PathSegments(path), PatternOf(s), |u|;
    TellsApartIs(false, reg, bad, u, r, s, m, path);
    PartAtIs(reg.walks, u, PatternOf(r), q);
    hide PathSegments, Undecided, Walked, ParsePattern, Matches;
    MatchesFits(q, segs, n);
    FitsMatches(u, segs[..n]);
  }

  /**
    Where conflicts only warn, a rejected registration is without trace exactly when every request
    that reaches a parameter node it made is answered by a route preferred to that node.
   */
  lemma TracelessInWarnModeExactlyWhen(routes: seq<Route>, bad: Route)
    requires Register(RegisterAll(false, routes), false, bad).1 != Registered
    ensures Traceless(false, routes, bad) <==> forall u, m, path :: !Open(RegisterAll(false, routes), bad, u, m, path)
  {
    var reg := RegisterAll(false, routes);
    RejectionIsTracelessExactlyWhen(false, routes, bad);
    RegisterIs(reg, false, bad);
    hide RegisterAll, Register, Traceless, TellsApart, Open;
    if Telling(false, reg, bad) {
      var u, r, s, m, path :| TellsApart(false, reg, bad, u, r, s, m, path);
      ToldApartIsOpen(reg, bad, u, r, s, m, path);
    } else {
      forall u, m, path ensures !Open(reg, bad, u, m, path) {
        if Open(reg, bad, u, m, path) {
          var r, s := Contenders(reg, bad, u, m, path);
        }
      }
    }
  }

  // ---- the default mode: a rejected path keeps its normalized form ------------------------------------------

  predicate IsParam(seg: string) { |seg| > 0 && seg[0] == ':' }

  predicate ParameterFree(path: string) {
    forall i :: 0 <= i < |Segments(path, 0)| ==> !IsParam(Segments(path, 0)[i])
  }

  ghost predicate SameOutcome(routes: seq<Route>, bad: Route, later: seq<Route>, l: Route) {
    Register(RegisterAll(true, routes + [bad] + later), true, l).1 == Register(RegisterAll(true, routes + later), true, l).1
  }

  /** Nobody can tell, neither by a lookup nor by how a later registration ends. */
  ghost predicate Unnoticed(routes: seq<Route>, bad: Route) {
    && (forall later, l :: SameOutcome(routes, bad, later, l))
    && (forall later, m, path, out, a :: SameAnswer(true, routes, bad, later, m, path, out, a))
  }

  /** Whatever has claimed a normalized form has been walked. */
  ghost predicate ClaimsWalked(reg: Registry) {
    forall n :: n in reg.normalized ==> Walked(ParsePattern(PathSegments(reg.normalized[n]))) in reg.walks
  }

  lemma ClaimsWalkedStep(reg: Registry, l: Route)
    requires ClaimsWalked(reg)
    ensures ClaimsWalked(Register(reg, true, l).0)
  {
    hide Register, Norm, Walked, ParsePattern, PathSegments, WellFormed;
    RegisterIs(reg, true, l);
  }

  lemma {:induction false} ClaimsWalkedAlways(routes: seq<Route>)
    ensures ClaimsWalked(RegisterAll(true, routes))
  {
    if routes != [] {
      ClaimsWalkedAlways(routes[..|routes| - 1]);
      ClaimsWalkedStep(RegisterAll(true, routes[..|routes| - 1]), routes[|routes| - 1]);
    }
  }

  /** A walk made before cannot be told apart again. */
  lemma OldWalk(reg: Registry, bad: Route, later: Registry, m: Method, segs: seq<string>)
    requires Walked(PatternOf(bad)) in reg.walks
    ensures Settled(reg, Walked(PatternOf(bad)), later, m, segs)
  {
    var x := Walked(PatternOf(bad));
    hide Walked, PatternOf;
    forall u, p, q | u <= x ensures !PartAt(reg.walks, u, p, q) { WalkedThrough(reg.walks, x, u); }
  }

  lemma ClaimedIsUnnoticed(routes: seq<Route>, bad: Route)
    requires var o := Register(RegisterAll(true, routes), true, bad).1; o != Registered && o != Conflict
    requires Claimed(RegisterAll(true, routes), bad)
    ensures Unnoticed(routes, bad)
  {
    var base, x := RegisterAll(true, routes), Walked(PatternOf(bad));
    ClaimsWalkedAlways(routes);
    assert x in base.walks;
    RecordedAlways(true, routes);
    hide RegisterAll, Register, PatternOf, Walked, Claimed, Settled;
    forall later, l ensures SameOutcome(routes, bad, later, l) {
      var walked := Couple(true, routes, bad, later);
      var walked' := CoupledStep(true, bad, base.walks, walked, RegisterAll(true, routes + later), RegisterAll(true, routes + [bad] + later), l);
    }
    forall later, m, path, out, a ensures SameAnswer(true, routes, bad, later, m, path, out, a) {
      var walked := Couple(true, routes, bad, later);
      var reg, reg' := RegisterAll(true, routes + later), RegisterAll(true, routes + [bad] + later);
      GrownRun(true, routes, later);
      OldWalk(base, bad, reg, m, PathSegments(path));
      AnswersAgree(base, x, walked, reg, reg', m, path, out, a);
    }
  }

  lemma RefusedIsUnnoticed(routes: seq<Route>, bad: Route)
    requires Register(RegisterAll(true, routes), true, bad).1 == Conflict
    ensures Unnoticed(routes, bad)
  {
    RegisterIs(RegisterAll(true, routes), true, bad);
    hide RegisterAll, Register;
    forall later, l ensures SameOutcome(routes, bad, later, l) { Unchanged(true, routes, bad, later); }
    forall later, m, path, out, a ensures SameAnswer(true, routes, bad, later, m, path, out, a) { Unchanged(true, routes, bad, later); }
  }

  lemma SameBlank(a: string, b: string)
    requires Blank(a) == Blank(b) && !IsParam(b)
    ensures a == b
  {}

  /** Without parameters there is no renaming, and no parameter node. */
  lemma NothingToRename(bad: Route, l: Route)
    requires ParameterFree(bad.path)
    ensures !Renames(bad, l)
  {
    if Norm(l.verb, l.path) == Norm(bad.verb, bad.path) {
      NormParts(l, bad);
      PathSegmentsAre(l.path);
      PathSegmentsAre(bad.path);
      var s, t := Segments(l.path, 0), Segments(bad.path, 0);
      hide Segments, Join;
      forall i | 0 <= i < |s| ensures s[i] == t[i] {
        assert Blanked(s)[i] == Blank(s[i]) && Blanked(t)[i] == Blank(t[i]);
        SameBlank(s[i], t[i]);
      }
      assert s == t;
    }
  }

  lemma NoNodeWithoutParameters(bad: Route, u: Pattern)
    requires ParameterFree(bad.path) && u <= Walked(PatternOf(bad)) && u != []
    ensures !u[|u| - 1].Param?
  {
    WalkedIsPrefix(PatternOf(bad));
    PathSegmentsAre(bad.path);
    hide Segments, Join, Walked;
    var n, segs := |u| - 1, PathSegments(bad.path);
    assert u[n] == PatternOf(bad)[n] == ParseSeg(segs[n]);
    assert !IsParam(segs[n]) by {
      var all := Segments(bad.path, 0);
      assert segs == all || segs[n] == all[n + 1];
    }
  }

  lemma ParameterFreeIsUnnoticed(routes: seq<Route>, bad: Route)
    requires var o := Register(RegisterAll(true, routes), true, bad).1; o != Registered && o != Conflict
    requires ParameterFree(bad.path)
    ensures Unnoticed(routes, bad)
  {
    var base := RegisterAll(true, routes);
    forall l ensures !Renames(bad, l) { NothingToRename(bad, l); }
    assert !Telling(true, base, bad) by {
      hide *;
      forall u, r, s, m, path ensures !TellsApart(true, base, bad, u, r, s, m, path) {
        if TellsApart(true, base, bad, u, r, s, m, path) {
          TellsApartNode(true, base, bad, u, r, s, m, path);
          NoNodeWithoutParameters(bad, u);
        }
      }
      NotTelling(true, base, bad);
    }
    hide RegisterAll, Register, Telling, Renames, ParameterFree;
    forall later, l ensures SameOutcome(routes, bad, later, l) {
      var walked := Couple(true, routes, bad, later);
      var walked' := CoupledStep(true, bad, base.walks, walked, RegisterAll(true, routes + later), RegisterAll(true, routes + [bad] + later), l);
    }
    forall later, m, path, out, a ensures SameAnswer(true, routes, bad, later, m, path, out, a) {
      NotTellingIsTraceless(true, routes, bad, later, m, path, out, a);
    }
  }

  lemma TellsApartNode(strict: bool, reg: Registry, bad: Route, u: Pattern, r: Route, s: Route, m: Method, path: string)
    requires TellsApart(strict, reg, bad, u, r, s, m, path)
    ensures u <= Walked(PatternOf(bad)) && u != [] && u[|u| - 1].Param?
  {}

  lemma NotTelling(strict: bool, reg: Registry, bad: Route)
    requires forall u, r, s, m, path :: !TellsApart(strict, reg, bad, u, r, s, m, path)
    ensures !Telling(strict, reg, bad)
  {}

  /** The same path with one parameter renamed. */
  lemma Renamed(bad: Route, i: nat) returns (l: Route)
    requires i < |Segments(bad.path, 0)| && IsParam(Segments(bad.path, 0)[i])
    ensures Renames(bad, l)
  {
    var segs := Segments(bad.path, 0);
    PathSegmentsAre(bad.path);
    var segs' := segs[i := segs[i] + "x"];
    RenamedSegments(segs, i);
    hide *;
    SegmentsOfJoin("", segs');
    assert "" + Join(segs') == Join(segs');
    l := Route(bad.verb, Join(segs'), 0);
    assert segs'[i] == segs[i] + "x" != segs[i];
    RenamesBy(bad, l);
  }

  lemma RenamedSegments(segs: seq<string>, i: nat)
    requires Slashless(segs) && i < |segs| && IsParam(segs[i])
    ensures Slashless(segs[i := segs[i] + "x"]) && Blanked(segs[i := segs[i] + "x"]) == Blanked(segs)
  {
    assert '/' !in segs[i] + "x";
  }

  lemma RenamesBy(bad: Route, l: Route)
    requires l.verb == bad.verb && Segments(l.path, 0) != Segments(bad.path, 0)
    requires Blanked(Segments(l.path, 0)) == Blanked(Segments(bad.path, 0))
    ensures Renames(bad, l)
  {
    hide Segments, Blanked, Join;
  }

  /** A rejected path that newly claims its form makes a later renaming of it end in a conflict. */
  lemma RenamingIsRefused(routes: seq<Route>, bad: Route, l: Route)
    requires var o := Register(RegisterAll(true, routes), true, bad).1; o != Registered && o != Conflict
    requires !Claimed(RegisterAll(true, routes), bad) && Renames(bad, l) && bad.path != ""
    ensures Register(RegisterAll(true, routes + [bad]), true, l).1 == Conflict
    ensures Register(RegisterAll(true, routes), true, l).1 != Conflict
  {
    var base := RegisterAll(true, routes);
    RegisterAppends(true, routes, bad);
    RegisterIs(base, true, bad);
    ClaimMade(base, bad);
    RegisterIs(base, true, l);
    RegisterIs(RegisterAll(true, routes + [bad]), true, l);
    hide RegisterAll, Register, Norm, Walked, PatternOf, WellFormed;
  }

  /**
    In the default mode a rejected registration goes unnoticed by every later registration and every
    later lookup exactly when it was refused for a conflict, or its path had claimed its normalized
    form before, or it has no parameter.
   */
  lemma UnnoticedInDefaultModeExactlyWhen(routes: seq<Route>, bad: Route)
    requires Register(RegisterAll(true, routes), true, bad).1 != Registered
    ensures Unnoticed(routes, bad) <==>
      var reg := RegisterAll(true, routes);
      Register(reg, true, bad).1 == Conflict || Claimed(reg, bad) || ParameterFree(bad.path)
  {
    hide RegisterAll, Register, Claimed, Unnoticed;
    if Register(RegisterAll(true, routes), true, bad).1 == Conflict {
      RefusedIsUnnoticed(routes, bad);
    } else if Claimed(RegisterAll(true, routes), bad) {
      ClaimedIsUnnoticed(routes, bad);
    } else if ParameterFree(bad.path) {
      ParameterFreeIsUnnoticed(routes, bad);
    } else {
      Noticed(routes, bad);
    }
  }

  lemma Noticed(routes: seq<Route>, bad: Route)
    requires var o := Register(RegisterAll(true, routes), true, bad).1; o != Registered && o != Conflict
    requires !Claimed(RegisterAll(true, routes), bad) && !ParameterFree(bad.path)
    ensures !Unnoticed(routes, bad)
  {
    hide RegisterAll, Register, Claimed, Segments, SameAnswer;
    var i :| 0 <= i < |Segments(bad.path, 0)| && IsParam(Segments(bad.path, 0)[i]);
    assert bad.path != "" by {
      PathSegmentsAre(bad.path);
      assert Segments(bad.path, 0)[i] != "";
      EmptyPath();
    }
    var l := Renamed(bad, i);
    RenamingIsRefused(routes, bad, l);
    assert routes + [] == routes && routes + [bad] + [] == routes + [bad];
    assert !SameOutcome(routes, bad, [], l);
  }

  lemma EmptyPath()
    ensures Segments("", 0) == [""]
  {}

  // ---- what follows from the exact conditions ----------------------------------------------------------------

  /** No new parameter node, no trace; a collision never makes one. */
  lemma NoNewNodeNoTrace(strict: bool, routes: seq<Route>, bad: Route)
    requires var reg := RegisterAll(strict, routes);
      var o := Register(reg, strict, bad).1;
      o == Conflict || o == Collision || (o == BadWildcard && forall u :: !NewNode(reg, bad, u))
    ensures Traceless(strict, routes, bad)
  {
    hide *;
    var reg := RegisterAll(strict, routes);
    RegisterIs(reg, strict, bad);
    if Register(reg, strict, bad).1 != Conflict {
      forall u ensures !NewNode(reg, bad, u) {
        if Register(reg, strict, bad).1 == Collision {
          RecordedAlways(strict, routes);
          CollisionNodes(reg, bad, u);
        }
      }
      forall u, r, s, m, path ensures !TellsApart(strict, reg, bad, u, r, s, m, path) { ToldNode(strict, reg, bad, u, r, s, m, path); }
      NotTelling(strict, reg, bad);
    } else {
      RefusedTellsNothing(strict, reg, bad);
    }
    RejectionIsTracelessExactlyWhen(strict, routes, bad);
  }

  lemma RefusedTellsNothing(strict: bool, reg: Registry, bad: Route)
    requires Register(reg, strict, bad).1 == Conflict
    ensures !Telling(strict, reg, bad)
  {
    hide Register;
  }

  lemma ToldNode(strict: bool, reg: Registry, bad: Route, u: Pattern, r: Route, s: Route, m: Method, path: string)
    requires !NewNode(reg, bad, u)
    ensures !TellsApart(strict, reg, bad, u, r, s, m, path)
  {
    hide PatternOf, Walked, Unwalked, Admissible, Undecided, Matches, PathSegments;
  }

  lemma CollisionNodes(reg: Registry, bad: Route, u: Pattern)
    requires Recorded(reg) && (bad.verb, PatternOf(bad)) in reg.table && WellFormed(PatternOf(bad))
    ensures !NewNode(reg, bad, u)
  {
    WalkedWhole(PatternOf(bad));
    hide PatternOf, Walked, Unwalked;
    assert (bad.verb, PatternOf(bad)).1 in reg.walks;
    if u <= PatternOf(bad) { WalkedThrough(reg.walks, PatternOf(bad), u); }
  }

  /** A new node may still be harmless: here older routes answer every request that reaches it. */
  lemma CoveredNodeLeavesNoTrace(strict: bool, routes: seq<Route>, bad: Route, a: string, b: string)
    requires Register(RegisterAll(strict, routes), strict, bad).1 != Registered
    requires Walked(PatternOf(bad)) == [Param(b)] && Unwalked(RegisterAll(strict, routes).walks, [Param(b)])
    requires var table := RegisterAll(strict, routes).table;
      forall m :: (m, [Param(a)]) in table && (m, [Param(a), Wild]) in table
    ensures Traceless(strict, routes, bad)
  {
    var reg := RegisterAll(strict, routes);
    RecordedAlways(strict, routes);
    hide RegisterAll, Register, PatternOf, Walked, PathSegments;
    forall u, r, s, m, path ensures !TellsApart(strict, reg, bad, u, r, s, m, path) {
      if TellsApart(strict, reg, bad, u, r, s, m, path) {
        TellsApartIs(strict, reg, bad, u, r, s, m, path);
        TellsApartNode(strict, reg, bad, u, r, s, m, path);
        assert u == [Param(b)];
        CoveredNode(reg, a, b, m, PathSegments(path), PatternOf(r));
      }
    }
    NotTelling(strict, reg, bad);
    RejectionIsTracelessExactlyWhen(strict, routes, bad);
  }

  lemma CoveredNode(reg: Registry, a: string, b: string, m: Method, segs: seq<string>, p: Pattern)
    requires Recorded(reg) && Unwalked(reg.walks, [Param(b)]) && p != [] && Matches(p, segs)
    requires (m, [Param(a)]) in reg.table && (m, [Param(a), Wild]) in reg.table
    ensures !Undecided(reg, [Param(b)], m, segs)
  {
    var c: Pattern := if |segs| == 1 then [Param(a)] else [Param(a), Wild];
    assert (m, c).1 in reg.walks;
    assert [] + c == c && [] + [Param(a)] == [Param(a)] && [] + [Param(b)] == [Param(b)];
    assert Matches(c, segs) by { assert c[1..] == if |segs| == 1 then [] else [Wild]; }
    WalkedThrough(reg.walks, c, [Param(a)]);
    assert Candidate(reg.table, [], segs, m, c) && Better(reg.walks, [], c, [Param(b)]);
  }

  /** Well-formed routes are no renamings of a route rejected for its wildcard. */
  lemma WellFormedRoutesRenameNothing(strict: bool, bad: Route, later: seq<Route>)
    requires !WellFormed(PatternOf(bad)) && forall i :: 0 <= i < |later| ==> WellFormed(PatternOf(later[i]))
    ensures NoRenaming(strict, bad, later)
  {
    forall i | 0 <= i < |later| ensures !Renames(bad, later[i]) {
      if Renames(bad, later[i]) { SameWildcards(bad, later[i]); }
    }
  }

  lemma SameWildcards(a: Route, b: Route)
    requires Norm(b.verb, b.path) == Norm(a.verb, a.path)
    ensures WellFormed(PatternOf(a)) == WellFormed(PatternOf(b))
  {
    NormParts(b, a);
    PathSegmentsAre(a.path);
    PathSegmentsAre(b.path);
    var s, t := Segments(a.path, 0), Segments(b.path, 0);
    BlanksAgree(s, t);
    hide *;
    var d := if |s| >= 2 && s[0] == "" then 1 else 0;
    assert PathSegments(a.path) == s[d..] && PathSegments(b.path) == t[d..];
    WildAlike(a, b, d, s, t);
  }

  lemma WildAlike(a: Route, b: Route, d: nat, s: seq<string>, t: seq<string>)
    requires |s| == |t| && d <= |s| && PathSegments(a.path) == s[d..] && PathSegments(b.path) == t[d..]
    requires forall i :: 0 <= i < |s| ==> (ParseSeg(s[i]) == Wild) == (ParseSeg(t[i]) == Wild)
    ensures WellFormed(PatternOf(a)) == WellFormed(PatternOf(b))
  {
    hide PathSegments, ParseSeg;
    assert forall i :: 0 <= i < |s| - d ==> PatternOf(a)[i] == ParseSeg(s[i + d]) && PatternOf(b)[i] == ParseSeg(t[i + d]);
    hide ParsePattern;
  }

  lemma BlanksAgree(s: seq<string>, t: seq<string>)
    requires Blanked(s) == Blanked(t)
    ensures |s| == |t| && forall i :: 0 <= i < |s| ==> (s[i] == "") == (t[i] == "") && (ParseSeg(s[i]) == Wild) == (ParseSeg(t[i]) == Wild)
  {
    forall i | 0 <= i < |s| ensures (s[i] == "") == (t[i] == "") && (ParseSeg(s[i]) == Wild) == (ParseSeg(t[i]) == Wild) {
      assert Blanked(s)[i] == Blank(s[i]) && Blanked(t)[i] == Blank(t[i]);
    }
  }

  // ---- an input that fails in the default mode -----------------------------------------------------------------

  lemma TextOf(segs: seq<string>, text: string)
    requires segs != [] && Slashless(segs) && text == "/" + Join(segs)
    ensures PathSegments(text) == segs
  {
    SlashedPath(segs);
  }

  lemma ExamplePaths()
    ensures PathSegments("/:b/*/z") == [":b", "*", "z"]
    ensures PathSegments("/:a/:c") == [":a", ":c"]
    ensures PathSegments("/:b/y") == [":b", "y"]
    ensures PathSegments("/x/y") == ["x", "y"]
  {
    hide *;
    JoinTwo("*", "z");
    JoinIs([":b", "*", "z"]);
    assert [":b", "*", "z"][1..] == ["*", "z"];
    JoinTwo(":a", ":c");
    JoinTwo(":b", "y");
    JoinTwo("x", "y");
    ExampleTexts();
    TextOf([":b", "*", "z"], "/:b/*/z");
    TextOf([":a", ":c"], "/:a/:c");
    TextOf([":b", "y"], "/:b/y");
    TextOf(["x", "y"], "/x/y");
  }

  lemma JoinTwo(a: string, b: string)
    ensures Join([a, b]) == a + "/" + b
  {
    assert [a, b][1..] == [b];
  }

  lemma ExampleTexts()
    ensures "/:b/*/z" == "/" + (":b" + "/" + ("*" + "/" + "z")) && "/:a/:c" == "/" + (":a" + "/" + ":c")
    ensures "/:b/y" == "/" + (":b" + "/" + "y") && "/x/y" == "/" + ("x" + "/" + "y")
    ensures Slashless([":b", "*", "z"]) && Slashless([":a", ":c"]) && Slashless([":b", "y"]) && Slashless(["x", "y"])
  {}

  lemma SameForm(a: Route, b: Route)
    requires a.path != "" && a.path[0] == '/' && b.path != "" && b.path[0] == '/'
    requires Norm(a.verb, a.path) == Norm(b.verb, b.path)
    ensures Blanked(PathSegments(a.path)) == Blanked(PathSegments(b.path))
  {
    NormParts(a, b);
    SlashFirst(a.path);
    SlashFirst(b.path);
    var s, t := Segments(a.path, 0), Segments(b.path, 0);
    assert Blanked(s)[1..] == Blanked(t)[1..];
    assert Blanked(s[1..]) == Blanked(s)[1..] && Blanked(t[1..]) == Blanked(t)[1..];
  }

  lemma ExampleForms(bad: Route, r: Route, s: Route)
    requires bad == Route(GET, "/:b/*/z", 1) && r == Route(GET, "/:a/:c", 2) && s == Route(GET, "/:b/y", 3)
    ensures Norm(r.verb, r.path) != Norm(s.verb, s.path)
    ensures Norm(r.verb, r.path) != Norm(bad.verb, bad.path) && Norm(s.verb, s.path) != Norm(bad.verb, bad.path)
  {
    ExamplePaths();
    hide PathSegments, Norm;
    assert Blanked([":a", ":c"])[1] == ":*" && Blanked([":b", "y"])[1] == "y";
    if Norm(r.verb, r.path) == Norm(s.verb, s.path) { SameForm(r, s); }
    if Norm(r.verb, r.path) == Norm(bad.verb, bad.path) { SameForm(r, bad); }
    if Norm(s.verb, s.path) == Norm(bad.verb, bad.path) { SameForm(s, bad); }
  }

  lemma SlashFirst(path: string)
    requires path != "" && path[0] == '/'
    ensures |Segments(path, 0)| >= 2 && PathSegments(path) == Segments(path, 0)[1..]
  {
    PathSegmentsAre(path);
    SegmentsAreSlashless(path, 1);
    SegmentEndIs(path, 0, 0);
  }

  lemma ExampleContest(bad: Route, r: Route, s: Route)
    requires bad == Route(GET, "/:b/*/z", 1) && r == Route(GET, "/:a/:c", 2) && s == Route(GET, "/:b/y", 3)
    ensures var reg := Registry(map[], [], map[]);
      Register(reg, true, bad).1 == BadWildcard && TellsApart(true, reg, bad, [Param("b")], r, s, GET, "/x/y")
  {
    hide *;
    var reg := Registry(map[], [], map[]);
    ExamplePaths();
    ExampleForms(bad, r, s);
    ExamplePatterns(bad, r, s);
    RegisterIs(reg, true, bad);
    EmptyRegistry(reg, bad, r, s);
    ExampleAdmissible(reg, bad, r, s);
    ExampleTellsApart(reg, bad, r, s);
  }

  lemma NoRoutes()
    ensures RegisterAll(true, []) == Registry(map[], [], map[])
  {}

  lemma ExampleIs(bad: Route, r: Route, s: Route)
    ensures [] + [r, s] == [r, s] && [] + [bad] + [r, s] == [bad, r, s]
  {}

  /**
    In the default mode, with nothing registered: an attempt with a misplaced wildcard below :b is
    rejected, then /:a/:c and /:b/y are registered. GET /x/y goes to the second of them; without the
    attempt it goes to the first.
   */
  lemma FailingInputInDefaultMode(bad: Route, r: Route, s: Route)
    requires bad == Route(GET, "/:b/*/z", 1) && r == Route(GET, "/:a/:c", 2) && s == Route(GET, "/:b/y", 3)
    ensures Register(RegisterAll(true, []), true, bad).1 == BadWildcard
    ensures Best(RegisterAll(true, [r, s]), [], PathSegments("/x/y"), GET, PatternOf(r))
    ensures Best(RegisterAll(true, [bad, r, s]), [], PathSegments("/x/y"), GET, PatternOf(s))
  {
    hide *;
    NoRoutes();
    ExampleContest(bad, r, s);
    ExampleIs(bad, r, s);
    RejectedAttemptReordersLaterRoutes(true, [], bad, [Param("b")], r, s, GET, "/x/y");
  }

  lemma EmptyRegistry(reg: Registry, bad: Route, r: Route, s: Route)
    requires reg == Registry(map[], [], map[])
    ensures !Ambiguous(reg, bad) && !Ambiguous(reg, r) && !Ambiguous(reg, s)
    ensures forall u :: Unwalked(reg.walks, u)
    ensures forall u, m, segs :: Undecided(reg, u, m, segs)
  {}

  lemma ExampleTellsApart(reg: Registry, bad: Route, r: Route, s: Route)
    requires bad.verb == r.verb == s.verb == GET && PathSegments("/x/y") == ["x", "y"]
    requires Walked(PatternOf(bad)) == [Param("b")]
    requires PatternOf(r) == [Param("a"), Param("c")] && PatternOf(s) == [Param("b"), Lit("y")]
    requires Matches(PatternOf(r), ["x", "y"]) && Matches(PatternOf(s), ["x", "y"])
    requires Admissible(true, reg, bad, r, s)
    requires (forall u :: Unwalked(reg.walks, u)) && forall u, m, segs :: Undecided(reg, u, m, segs)
    ensures TellsApart(true, reg, bad, [Param("b")], r, s, GET, "/x/y")
  {
    hide Unwalked, Undecided, Admissible, PathSegments, PatternOf, Walked, Matches;
    var u, p, q: Pattern := [Param("b")], [Param("a"), Param("c")], [Param("b"), Lit("y")];
    assert p[..0] == u[..0] && p[0] != u[0];
    assert PartAt(reg.walks, u, p, q);
  }

  lemma ExampleAdmissible(reg: Registry, bad: Route, r: Route, s: Route)
    requires WellFormed(PatternOf(r)) && WellFormed(PatternOf(s)) && !Ambiguous(reg, r) && !Ambiguous(reg, s)
    requires Norm(r.verb, r.path) != Norm(s.verb, s.path)
    requires Norm(r.verb, r.path) != Norm(bad.verb, bad.path) && Norm(s.verb, s.path) != Norm(bad.verb, bad.path)
    ensures Admissible(true, reg, bad, r, s)
  {}

  lemma ExamplePatterns(bad: Route, r: Route, s: Route)
    requires PathSegments(bad.path) == [":b", "*", "z"] && PathSegments(r.path) == [":a", ":c"] && PathSegments(s.path) == [":b", "y"]
    ensures !WellFormed(PatternOf(bad)) && Walked(PatternOf(bad)) == [Param("b")]
    ensures PatternOf(r) == [Param("a"), Param("c")] && PatternOf(s) == [Param("b"), Lit("y")]
    ensures WellFormed(PatternOf(r)) && WellFormed(PatternOf(s))
    ensures Matches(PatternOf(r), ["x", "y"]) && Matches(PatternOf(s), ["x", "y"])
  {
    assert ":a"[1..] == "a" && ":b"[1..] == "b" && ":c"[1..] == "c";
    var w := PatternOf(bad);
    assert w == [Param("b"), Wild, Lit("z")];
    assert w[1] == Wild && w[1..][0] == Wild;
    FitsMatches(PatternOf(r), ["x", "y"]);
    FitsMatches(PatternOf(s), ["x", "y"]);
  }
}
