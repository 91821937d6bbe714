/** What a rejected registration leaves behind, and exactly when somebody can tell later. */
module RouterTraces {
  import opened OptionType
  import opened RouterSpec
  import opened RouterTheorems

  function PatternOf(route: Route): Pattern {
    ParsePattern(PathSegments(route.path))
  }

  /** No earlier registration walked through this prefix. */
  predicate Unwalked(walks: seq<Pattern>, prefix: Pattern) {
    FirstWalk(walks, prefix) == |walks|
  }

  lemma {:induction false} FirstWalkConcat(w: seq<Pattern>, l: seq<Pattern>, prefix: Pattern)
    ensures FirstWalk(w + l, prefix) == if Unwalked(w, prefix) then |w| + FirstWalk(l, prefix) else FirstWalk(w, prefix)
  {
    if w == [] {
      assert w + l == l;
    } else {
      assert (w + l)[1..] == w[1..] + l && (w + l)[0] == w[0];
      FirstWalkConcat(w[1..], l, prefix);
    }
  }

  lemma WalkedThrough(w: seq<Pattern>, p: Pattern, prefix: Pattern)
    requires p in w && prefix <= p
    ensures !Unwalked(w, prefix)
  {
    WalkedPrefix(w, p, prefix);
  }

  // ---- one more walk in the middle ---------------------------------------------------------------------

  lemma FirstWalkInserted(w: seq<Pattern>, x: Pattern, l: seq<Pattern>, a: Pattern)
    ensures !Unwalked(w, a) ==> FirstWalk(w + ([x] + l), a) == FirstWalk(w + l, a) == FirstWalk(w, a) < |w|
    ensures Unwalked(w, a) ==> FirstWalk(w + l, a) >= |w|
    ensures Unwalked(w, a) ==> FirstWalk(w + ([x] + l), a) == if a <= x then |w| else FirstWalk(w + l, a) + 1
  {
    assert FirstWalk([x] + l, a) == if a <= x then 0 else 1 + FirstWalk(l, a) by { assert ([x] + l)[1..] == l; }
    hide FirstWalk;
    FirstWalkConcat(w, l, a);
    FirstWalkConcat(w, [x] + l, a);
  }

  /** Two parameters at one node: an inserted walk changes their order only if both were new before it. */
  lemma OrderOfTwo(w: seq<Pattern>, x: Pattern, l: seq<Pattern>, a: Pattern, b: Pattern)
    requires |a| == |b| && a != b
    requires (FirstWalk(w + l, a) < FirstWalk(w + l, b)) != (FirstWalk(w + ([x] + l), a) < FirstWalk(w + ([x] + l), b))
    ensures Unwalked(w, a) && Unwalked(w, b) && (a <= x || b <= x)
  {
    hide FirstWalk, Unwalked;
    FirstWalkInserted(w, x, l, a);
    FirstWalkInserted(w, x, l, b);
  }

  /** The patterns part at node `u`: `q` goes through it, `p` through another parameter, both new. */
  predicate PartAt(walks: seq<Pattern>, u: Pattern, p: Pattern, q: Pattern) {
    && u != [] && u[|u| - 1].Param? && u <= q && |u| <= |p|
    && p[..|u| - 1] == u[..|u| - 1] && p[|u| - 1].Param? && p[|u| - 1] != u[|u| - 1]
    && Unwalked(walks, u) && Unwalked(walks, p[..|u|])
  }

  /** Where an inserted walk changes the preference between two patterns. */
  lemma {:induction false} Flip(w: seq<Pattern>, x: Pattern, l: seq<Pattern>, prefix: Pattern, p: Pattern, q: Pattern) returns (i: nat)
    requires Better(w + l, prefix, p, q) != Better(w + ([x] + l), prefix, p, q)
    ensures i < |p| && i < |q| && p[..i] == q[..i] && p[i] != q[i] && p[i].Param? && q[i].Param?
    ensures Unwalked(w, prefix + p[..i + 1]) && Unwalked(w, prefix + q[..i + 1])
    ensures prefix + p[..i + 1] <= x || prefix + q[..i + 1] <= x
    decreases |p|
  {
    hide FirstWalk, Unwalked;
    if p[0] == q[0] {
      var j := Flip(w, x, l, prefix + [p[0]], p[1..], q[1..]);
      i := j + 1;
      Deeper(prefix, p, j);
      Deeper(prefix, q, j);
    } else {
      i := 0;
      assert p[..1] == [p[0]] && q[..1] == [q[0]];
      assert (prefix + [p[0]])[|prefix|] != (prefix + [q[0]])[|prefix|];
      OrderOfTwo(w, x, l, prefix + [p[0]], prefix + [q[0]]);
    }
  }

  lemma Deeper(prefix: Pattern, p: Pattern, j: nat)
    requires j < |p| - 1
    ensures prefix + [p[0]] + p[1..][..j + 1] == prefix + p[..j + 2]
    ensures p[..j + 1] == [p[0]] + p[1..][..j] && p[1..][j] == p[j + 1]
  {}

  lemma FlipParts(w: seq<Pattern>, x: Pattern, l: seq<Pattern>, p: Pattern, q: Pattern) returns (u: Pattern)
    requires Better(w + l, [], p, q) != Better(w + ([x] + l), [], p, q)
    ensures u <= x && (PartAt(w, u, p, q) || PartAt(w, u, q, p))
  {
    var i := Flip(w, x, l, [], p, q);
    assert [] + p[..i + 1] == p[..i + 1] && [] + q[..i + 1] == q[..i + 1];
    u := if q[..i + 1] <= x then q[..i + 1] else p[..i + 1];
    assert p[..i + 1][..i] == p[..i] && q[..i + 1][..i] == q[..i];
  }

  // ---- an older pattern against what comes through a new node ------------------------------------------

  /** `z` goes where `u` goes, up to its last segment, a parameter that is new in `z`. */
  predicate Through(w: seq<Pattern>, prefix: Pattern, u: Pattern, z: Pattern) {
    && u != [] && u[|u| - 1].Param? && |u| <= |z| && z[..|u| - 1] == u[..|u| - 1] && z[|u| - 1].Param?
    && Unwalked(w, prefix + z[..|u|])
  }

  lemma ThroughTail(w: seq<Pattern>, prefix: Pattern, u: Pattern, z: Pattern)
    requires Through(w, prefix, u, z) && |u| >= 2
    ensures z[0] == u[0] && Through(w, prefix + [u[0]], u[1..], z[1..])
  {
    assert z[..|u| - 1][0] == u[..|u| - 1][0];
    assert z[1..][..|u| - 2] == z[..|u| - 1][1..] && u[1..][..|u| - 2] == u[..|u| - 1][1..];
    assert prefix + [u[0]] + z[1..][..|u| - 1] == prefix + z[..|u|];
  }

  lemma OlderStays(w: seq<Pattern>, more: seq<Pattern>, a: Pattern, b: Pattern)
    requires FirstWalk(w, a) < FirstWalk(w, b)
    ensures FirstWalk(w + more, a) < FirstWalk(w + more, b)
  {
    FirstWalkConcat(w, more, a);
    FirstWalkConcat(w, more, b);
  }

  /** A registered pattern preferred to the new node is preferred, for good, to all that comes through there. */
  lemma {:induction false} Beats(w: seq<Pattern>, more: seq<Pattern>, prefix: Pattern, c: Pattern, u: Pattern, z: Pattern)
    requires prefix + c in w && Better(w, prefix, c, u) && Through(w, prefix, u, z)
    ensures Better(w + more, prefix, c, z)
    decreases |u|
  {
    assert prefix + c == prefix + [c[0]] + c[1..];
    WalkedThrough(w, prefix + c, prefix + [c[0]]);
    if |u| >= 2 {
      ThroughTail(w, prefix, u, z);
      if c[0] == u[0] {
        Beats(w, more, prefix + [c[0]], c[1..], u[1..], z[1..]);
      } else if c[0].Param? && u[0].Param? {
        OlderStays(w, more, prefix + [c[0]], prefix + [u[0]]);
      }
    } else {
      assert prefix + z[..1] == prefix + [z[0]];
      OlderUnlessLiteral(w, more, prefix, c[0], z[0]);
    }
  }

  lemma OlderUnlessLiteral(w: seq<Pattern>, more: seq<Pattern>, prefix: Pattern, a: Seg, b: Seg)
    requires !a.Wild? && b.Param? && !Unwalked(w, prefix + [a]) && Unwalked(w, prefix + [b])
    ensures a != b && Before(w + more, prefix, a, b)
  {
    if a.Param? { OlderStays(w, more, prefix + [a], prefix + [b]); }
  }

  /** A registered pattern not preferred to the new node yields, for good, to all that comes through there. */
  lemma {:induction false} Yields(w: seq<Pattern>, more: seq<Pattern>, prefix: Pattern, c: Pattern, u: Pattern, z: Pattern, segs: seq<string>)
    requires prefix + c in w && !Better(w, prefix, c, u) && Through(w, prefix, u, z) && Unwalked(w, prefix + u)
    requires Matches(c, segs) && Matches(z, segs)
    ensures Better(w + more, prefix, z, c)
    decreases |u|
  {
    assert prefix + c == prefix + [c[0]] + c[1..];
    WalkedThrough(w, prefix + c, prefix + [c[0]]);
    hide FirstWalk, Unwalked;
    if |u| == 1 {
      YieldsAtNode(w, more, prefix, c, u, z);
    } else {
      ThroughTail(w, prefix, u, z);
      if c[0] == u[0] {
        assert prefix + u == prefix + [u[0]] + u[1..];
        Yields(w, more, prefix + [c[0]], c[1..], u[1..], z[1..], segs[1..]);
      } else {
        YieldsHere(w, more, prefix, c[0], z[0], segs[0]);
      }
    }
  }

  lemma YieldsAtNode(w: seq<Pattern>, more: seq<Pattern>, prefix: Pattern, c: Pattern, u: Pattern, z: Pattern)
    requires c != [] && |u| == 1 && !Unwalked(w, prefix + [c[0]]) && !Better(w, prefix, c, u)
    requires Through(w, prefix, u, z) && Unwalked(w, prefix + u)
    ensures Better(w + more, prefix, z, c)
  {
    assert u == [u[0]];
    assert c[0] != u[0];
    assert z[..1] == [z[0]];
  }

  /** Two segments that accept the same text, neither of them a wildcard in front of more. */
  lemma YieldsHere(w: seq<Pattern>, more: seq<Pattern>, prefix: Pattern, a: Seg, b: Seg, text: string)
    requires a != b && !b.Wild? && (a.Lit? ==> a.text == text) && (b.Lit? ==> b.text == text)
    requires !Unwalked(w, prefix + [a]) && !Before(w, prefix, a, b)
    ensures Before(w + more, prefix, b, a)
  {
    if a.Param? && b.Param? {
      var n := FirstWalk(w, prefix + [a]);
      assert (prefix + [a])[|prefix|] != (prefix + [b])[|prefix|];
      OlderStays(w, more, prefix + [b], prefix + [a]);
    }
  }

  // ---- the two runs, with and without the rejected registration ----------------------------------------

  /** Another path with the method and the normalized form of `bad`: the parameters renamed. */
  predicate Renames(bad: Route, l: Route) {
    Norm(l.verb, l.path) == Norm(bad.verb, bad.path) && l.path != bad.path
  }

  /** The default mode refuses conflicts; there, `bad` also claims its normalized form. */
  ghost predicate NoRenaming(strict: bool, bad: Route, later: seq<Route>) {
    strict ==> forall i :: 0 <= i < |later| ==> !Renames(bad, later[i])
  }

  /** Already claimed by the same path, so nothing new is claimed. */
  predicate Claimed(reg: Registry, route: Route) {
    var norm := Norm(route.verb, route.path);
    norm in reg.normalized && reg.normalized[norm] == route.path
  }

  /** The claims after the same later registrations: equal, but for the form of `bad`. */
  ghost predicate SameClaims(bad: Route, n: map<string, string>, n': map<string, string>) {
    var norm := Norm(bad.verb, bad.path);
    && norm in n' && n'[norm] == bad.path && (norm in n ==> n[norm] == bad.path || n[norm] == "")
    && forall k :: k != norm ==> (k in n <==> k in n') && (k in n ==> n[k] == n'[k])
  }

  /** Two registries after the same later registrations, the second one with `bad` before them. */
  ghost predicate Coupled(strict: bool, bad: Route, walks: seq<Pattern>, later: seq<Pattern>, reg: Registry, reg': Registry) {
    && reg'.table == reg.table
    && reg.walks == walks + later && reg'.walks == walks + ([Walked(PatternOf(bad))] + later)
    && (strict ==> reg.normalized == reg'.normalized || SameClaims(bad, reg.normalized, reg'.normalized))
  }

  lemma SameAmbiguity(bad: Route, reg: Registry, reg': Registry, l: Route)
    requires reg.normalized == reg'.normalized || (SameClaims(bad, reg.normalized, reg'.normalized) && !Renames(bad, l))
    ensures Ambiguous(reg, l) == Ambiguous(reg', l)
    ensures var norm := Norm(l.verb, l.path); !Ambiguous(reg, l) ==>
      reg.normalized[norm := l.path] == reg'.normalized[norm := l.path]
      || SameClaims(bad, reg.normalized[norm := l.path], reg'.normalized[norm := l.path])
  {
    hide Norm;
  }

  /** What one attempt does, by outcome. */
  lemma RegisterIs(reg: Registry, strict: bool, l: Route)
    ensures var (after, outcome) := Register(reg, strict, l); var p := PatternOf(l);
      && (outcome == Conflict <==> strict && Ambiguous(reg, l))
      && (outcome == Conflict ==> after == reg)
      && (outcome != Conflict ==>
            && after.walks == reg.walks + [Walked(p)]
            && (!Ambiguous(reg, l) ==> after.normalized == reg.normalized[Norm(l.verb, l.path) := l.path])
            && (outcome == BadWildcard <==> !WellFormed(p))
            && (outcome == Collision <==> WellFormed(p) && (l.verb, p) in reg.table)
            && (outcome == Registered <==> WellFormed(p) && (l.verb, p) !in reg.table)
            && after.table == if outcome == Registered then reg.table[(l.verb, p) := l] else reg.table)
  {
    hide Norm, Ambiguous, ParsePattern, WellFormed, Walked;
  }

  lemma CoupledStep(strict: bool, bad: Route, walks: seq<Pattern>, later: seq<Pattern>, reg: Registry, reg': Registry, l: Route)
    returns (later': seq<Pattern>)
    requires Coupled(strict, bad, walks, later, reg, reg')
    requires !strict || reg.normalized == reg'.normalized || !Renames(bad, l)
    ensures Register(reg, strict, l).1 == Register(reg', strict, l).1
    ensures Coupled(strict, bad, walks, later', Register(reg, strict, l).0, Register(reg', strict, l).0)
    ensures strict && reg.normalized == reg'.normalized ==> Register(reg, strict, l).0.normalized == Register(reg', strict, l).0.normalized
  {
    if strict { SameAmbiguity(bad, reg, reg', l); }
    hide Register, Ambiguous, Renames, SameClaims, Norm, Walked, WellFormed, ParsePattern, PatternOf;
    RegisterIs(reg, strict, l);
    RegisterIs(reg', strict, l);
    later' := if Register(reg, strict, l).1 == Conflict then later else later + [Walked(PatternOf(l))];
    var w := Walked(PatternOf(bad));
    assert [w] + (later + [Walked(PatternOf(l))]) == [w] + later + [Walked(PatternOf(l))];
    assert walks + ([w] + later + [Walked(PatternOf(l))]) == walks + ([w] + later) + [Walked(PatternOf(l))];
    assert walks + (later + [Walked(PatternOf(l))]) == walks + later + [Walked(PatternOf(l))];
  }

  lemma Last(routes: seq<Route>, later: seq<Route>)
    requires later != []
    ensures var n := |later| - 1; routes + later == routes + later[..n] + [later[n]]
  {}

  /** The attempt that was rejected, but not for a conflict, has left its walk and its claim. */
  lemma CoupledStart(strict: bool, reg: Registry, bad: Route)
    requires var o := Register(reg, strict, bad).1; o != Registered && o != Conflict
    ensures Coupled(strict, bad, reg.walks, [], reg, Register(reg, strict, bad).0)
    ensures strict && Claimed(reg, bad) ==> reg.normalized == Register(reg, strict, bad).0.normalized
  {
    hide ParsePattern, WellFormed, Walked, Norm;
    RegisterIs(reg, strict, bad);
    assert reg.walks + [] == reg.walks && [Walked(PatternOf(bad))] + [] == [Walked(PatternOf(bad))];
  }

  lemma {:induction false} Couple(strict: bool, routes: seq<Route>, bad: Route, later: seq<Route>) returns (walked: seq<Pattern>)
    requires var o := Register(RegisterAll(strict, routes), strict, bad).1; o != Registered && o != Conflict
    requires NoRenaming(strict, bad, later) || Claimed(RegisterAll(strict, routes), bad)
    ensures var (reg, reg') := (RegisterAll(strict, routes + later), RegisterAll(strict, routes + [bad] + later));
      && Coupled(strict, bad, RegisterAll(strict, routes).walks, walked, reg, reg')
      && (strict && Claimed(RegisterAll(strict, routes), bad) ==> reg.normalized == reg'.normalized)
  {
    hide Register, Coupled, Renames, Claimed, RegisterAll;
    if later == [] {
      walked := [];
      assert routes + [] == routes && routes + [bad] + [] == routes + [bad];
      RegisterAppends(strict, routes, bad);
      CoupledStart(strict, RegisterAll(strict, routes), bad);
    } else {
      var n := |later| - 1;
      walked := Couple(strict, routes, bad, later[..n]);
      Last(routes, later);
      Last(routes + [bad], later);
      RegisterAppends(strict, routes + later[..n], later[n]);
      RegisterAppends(strict, routes + [bad] + later[..n], later[n]);
      walked := CoupledStep(strict, bad, RegisterAll(strict, routes).walks, walked,
                            RegisterAll(strict, routes + later[..n]), RegisterAll(strict, routes + [bad] + later[..n]), later[n]);
    }
  }

  // ---- where the routes of a table come from --------------------------------------------------------------

  /** A route added by later registrations: it is one of them, and conflicted with nothing there was. */
  ghost predicate Added(strict: bool, base: Registry, reg: Registry, later: seq<Route>, k: (Method, Pattern))
    requires k in reg.table
  {
    var r := reg.table[k];
    && r in later && r.verb == k.0 && PatternOf(r) == k.1 && WellFormed(k.1)
    && (strict ==> !Ambiguous(base, r))
    && (strict && r.path != "" ==> Claimed(reg, r))
  }

  /** What later registrations leave alone: routes, and claims in the default mode. */
  ghost predicate Grown(strict: bool, base: Registry, reg: Registry) {
    && (forall k :: k in base.table ==> k in reg.table && reg.table[k] == base.table[k])
    && (strict ==> forall n :: n in base.normalized && base.normalized[n] != "" ==>
          n in reg.normalized && reg.normalized[n] == base.normalized[n])
  }

  lemma GrownStep(strict: bool, base: Registry, reg: Registry, l: Route)
    requires Grown(strict, base, reg)
    ensures Grown(strict, base, Register(reg, strict, l).0)
  {
    hide Register, Norm, ParsePattern, WellFormed, Walked;
    RegisterIs(reg, strict, l);
  }

  lemma ClaimStays(reg: Registry, l: Route, r: Route)
    requires Claimed(reg, r) && r.path != ""
    ensures Claimed(Register(reg, true, l).0, r)
  {
    hide Register, Norm, ParsePattern, WellFormed, Walked;
    RegisterIs(reg, true, l);
  }

  lemma ClaimMade(reg: Registry, l: Route)
    requires !Ambiguous(reg, l)
    ensures Claimed(Register(reg, true, l).0, l)
  {
    hide Register, Norm, ParsePattern, WellFormed, Walked;
    RegisterIs(reg, true, l);
  }

  lemma AmbiguousStays(base: Registry, reg: Registry, l: Route)
    requires Grown(true, base, reg) && Ambiguous(base, l)
    ensures Ambiguous(reg, l)
  {
    hide Norm;
  }

  lemma AddedStep(strict: bool, base: Registry, reg: Registry, later: seq<Route>, l: Route, k: (Method, Pattern))
    requires Grown(strict, base, reg)
    requires k in Register(reg, strict, l).0.table && k !in base.table
    requires k in reg.table ==> Added(strict, base, reg, later, k)
    ensures Added(strict, base, Register(reg, strict, l).0, later + [l], k)
  {
    hide Register, Norm, Ambiguous, Claimed, ParsePattern, WellFormed, Walked, Grown;
    RegisterIs(reg, strict, l);
    if strict {
      if k in reg.table && reg.table[k].path != "" { ClaimStays(reg, l, reg.table[k]); }
      if !Ambiguous(reg, l) { ClaimMade(reg, l); }
      if Ambiguous(base, l) { AmbiguousStays(base, reg, l); }
    }
  }

  lemma {:induction false} GrownRun(strict: bool, routes: seq<Route>, later: seq<Route>)
    ensures Grown(strict, RegisterAll(strict, routes), RegisterAll(strict, routes + later))
  {
    hide RegisterAll, Register;
    if later == [] {
      assert routes + [] == routes;
    } else {
      var n := |later| - 1;
      GrownRun(strict, routes, later[..n]);
      Last(routes, later);
      RegisterAppends(strict, routes + later[..n], later[n]);
      GrownStep(strict, RegisterAll(strict, routes), RegisterAll(strict, routes + later[..n]), later[n]);
    }
  }

  lemma {:induction false} AddedRun(strict: bool, routes: seq<Route>, later: seq<Route>, k: (Method, Pattern))
    requires k in RegisterAll(strict, routes + later).table && k !in RegisterAll(strict, routes).table
    ensures Added(strict, RegisterAll(strict, routes), RegisterAll(strict, routes + later), later, k)
  {
    hide RegisterAll, Register, Added, Grown;
    assert routes + [] == routes;
    if later != [] {
      var n := |later| - 1;
      Last(routes, later);
      RegisterAppends(strict, routes + later[..n], later[n]);
      GrownRun(strict, routes, later[..n]);
      if k in RegisterAll(strict, routes + later[..n]).table { AddedRun(strict, routes, later[..n], k); }
      AddedStep(strict, RegisterAll(strict, routes), RegisterAll(strict, routes + later[..n]), later[..n], later[n], k);
      assert later[..n] + [later[n]] == later;
    }
  }

  // ---- exactly when a lookup can tell ---------------------------------------------------------------------

  predicate Serves(verb: Method, m: Method) {
    verb == m || (m == HEAD && verb == GET)
  }

  /** No registered route that is preferred to the node `u` answers this request. */
  ghost predicate Undecided(reg: Registry, u: Pattern, m: Method, segs: seq<string>) {
    forall c :: Candidate(reg.table, [], segs, m, c) ==> !Better(reg.walks, [], c, u)
  }

  /** Both can be registered, one after the other, whether or not `bad` was attempted before. */
  predicate Admissible(strict: bool, reg: Registry, bad: Route, r: Route, s: Route) {
    && WellFormed(PatternOf(r)) && WellFormed(PatternOf(s))
    && (strict ==>
          && !Ambiguous(reg, r) && !Ambiguous(reg, s)
          && Norm(r.verb, r.path) != Norm(s.verb, s.path)
          && Norm(r.verb, r.path) != Norm(bad.verb, bad.path) && Norm(s.verb, s.path) != Norm(bad.verb, bad.path))
  }

  /**
    The attempt made a new parameter node `u`; `s` goes through it, `r` through another new parameter
    beside it; both serve a request that no preferred route answers.
   */
  ghost predicate TellsApart(strict: bool, reg: Registry, bad: Route, u: Pattern, r: Route, s: Route, m: Method, path: string) {
    var (p, q, segs) := (PatternOf(r), PatternOf(s), PathSegments(path));
    && u <= Walked(PatternOf(bad)) && PartAt(reg.walks, u, p, q) && Admissible(strict, reg, bad, r, s)
    && Serves(r.verb, m) && Serves(s.verb, m) && Matches(p, segs) && Matches(q, segs)
    && Undecided(reg, u, m, segs)
  }

  ghost predicate Telling(strict: bool, reg: Registry, bad: Route) {
    && Register(reg, strict, bad).1 != Conflict
    && exists u, r, s, m, path :: TellsApart(strict, reg, bad, u, r, s, m, path)
  }

  ghost predicate SameAnswer(strict: bool, routes: seq<Route>, bad: Route, later: seq<Route>, m: Method, path: string,
                             out: map<string, string>, a: Answer) {
    Answers(RegisterAll(strict, routes + [bad] + later), m, path, out, a)
    == Answers(RegisterAll(strict, routes + later), m, path, out, a)
  }

  /** No later lookup can tell that the registration was attempted, whatever is registered in between. */
  ghost predicate Traceless(strict: bool, routes: seq<Route>, bad: Route) {
    forall later, m, path, out, a :: NoRenaming(strict, bad, later) ==> SameAnswer(strict, routes, bad, later, m, path, out, a)
  }

  // ---- nothing to tell: every answer is the same ------------------------------------------------------------

  predicate BothCandidates(reg: Registry, m: Method, segs: seq<string>, p: Pattern, q: Pattern) {
    Candidate(reg.table, [], segs, m, p) && Candidate(reg.table, [], segs, m, q)
  }

  /** Where the walk could change a preference, a route there was before is preferred anyway. */
  ghost predicate Settled(base: Registry, x: Pattern, reg: Registry, m: Method, segs: seq<string>) {
    forall u, p, q :: u <= x && PartAt(base.walks, u, p, q) && BothCandidates(reg, m, segs, p, q) ==> !Undecided(base, u, m, segs)
  }

  lemma StillCandidate(base: Registry, reg: Registry, m: Method, segs: seq<string>, c: Pattern)
    requires forall k :: k in base.table ==> k in reg.table
    requires Recorded(base) && Candidate(base.table, [], segs, m, c)
    ensures Candidate(reg.table, [], segs, m, c) && c in base.walks
  {
    assert [] + c == c;
  }

  /** A pattern that parts at a new node is not the best if something preferred to the node answers. */
  lemma NotBest(base: Registry, reg: Registry, more: seq<Pattern>, m: Method, segs: seq<string>, u: Pattern, z: Pattern, c: Pattern)
    requires Recorded(base) && (forall k :: k in base.table ==> k in reg.table) && reg.walks == base.walks + more
    requires Candidate(base.table, [], segs, m, c) && Better(base.walks, [], c, u)
    requires Through(base.walks, [], u, z)
    ensures !Best(reg, [], segs, m, z)
  {
    StillCandidate(base, reg, m, segs, c);
    assert [] + c == c;
    Beats(base.walks, more, [], c, u, z);
    BetterAsymmetric(reg.walks, [], c, z);
  }

  lemma BothThrough(w: seq<Pattern>, u: Pattern, p: Pattern, q: Pattern)
    requires PartAt(w, u, p, q)
    ensures Through(w, [], u, p) && Through(w, [], u, q)
  {
    assert [] + p[..|u|] == p[..|u|] && [] + q[..|u|] == u;
    assert q[..|u|][|u| - 1] == u[|u| - 1] && q[..|u| - 1] == u[..|u| - 1];
  }

  lemma BestAgrees(base: Registry, x: Pattern, l: seq<Pattern>, reg: Registry, a: seq<Pattern>, reg': Registry, b: seq<Pattern>,
                   m: Method, segs: seq<string>, p: Pattern)
    requires Recorded(base) && (forall k :: k in base.table ==> k in reg.table) && reg'.table == reg.table
    requires (a == l && b == [x] + l) || (b == l && a == [x] + l)
    requires reg.walks == base.walks + a && reg'.walks == base.walks + b
    requires Settled(base, x, reg, m, segs) && Best(reg, [], segs, m, p)
    ensures Best(reg', [], segs, m, p)
  {
    forall q | Candidate(reg'.table, [], segs, m, q) && q != p ensures Better(reg'.walks, [], p, q) {
      if !Better(reg'.walks, [], p, q) {
        var u := FlipParts(base.walks, x, l, p, q);
        var c :| Candidate(base.table, [], segs, m, c) && Better(base.walks, [], c, u);
        if PartAt(base.walks, u, p, q) { BothThrough(base.walks, u, p, q); } else { BothThrough(base.walks, u, q, p); }
        NotBest(base, reg, a, m, segs, u, p, c);
      }
    }
  }

  lemma AnswersAgree(base: Registry, x: Pattern, l: seq<Pattern>, reg: Registry, reg': Registry, m: Method, path: string,
                     out: map<string, string>, a: Answer)
    requires Recorded(base) && (forall k :: k in base.table ==> k in reg.table) && reg'.table == reg.table
    requires reg.walks == base.walks + l && reg'.walks == base.walks + ([x] + l)
    requires Settled(base, x, reg, m, PathSegments(path))
    ensures Answers(reg', m, path, out, a) == Answers(reg, m, path, out, a)
  {
    var segs := PathSegments(path);
    forall p ensures Best(reg', [], segs, m, p) == Best(reg, [], segs, m, p) {
      hide Best, Settled, PathSegments;
      if Best(reg, [], segs, m, p) { BestAgrees(base, x, l, reg, l, reg', [x] + l, m, segs, p); }
      if Best(reg', [], segs, m, p) {
        SettledTable(base, x, reg, reg', m, segs);
        BestAgrees(base, x, l, reg', [x] + l, reg, l, m, segs, p);
      }
    }
  }

  lemma SettledTable(base: Registry, x: Pattern, reg: Registry, reg': Registry, m: Method, segs: seq<string>)
    requires Settled(base, x, reg, m, segs) && reg'.table == reg.table
    ensures Settled(base, x, reg', m, segs)
  {}

  lemma NewIsAdded(strict: bool, routes: seq<Route>, later: seq<Route>, m: Method, segs: seq<string>, p: Pattern, n: nat) returns (r: Route)
    requires var base := RegisterAll(strict, routes); n <= |p| && Unwalked(base.walks, p[..n])
    requires Candidate(RegisterAll(strict, routes + later).table, [], segs, m, p)
    ensures PatternOf(r) == p && WellFormed(p) && Serves(r.verb, m) && r in later
    ensures strict ==> !Ambiguous(RegisterAll(strict, routes), r)
    ensures strict && r.path != "" ==> Claimed(RegisterAll(strict, routes + later), r)
  {
    var base, reg := RegisterAll(strict, routes), RegisterAll(strict, routes + later);
    RecordedAlways(strict, routes);
    hide RegisterAll, Ambiguous, Claimed, ParsePattern, WellFormed;
    assert [] + p == p;
    var k := if (m, p) in reg.table then (m, p) else (GET, p);
    if k in base.table {
      assert p in base.walks;
      WalkedThrough(base.walks, p, p[..n]);
    }
    AddedRun(strict, routes, later, k);
    r := reg.table[k];
  }

  lemma HasParam(route: Route, n: nat)
    requires n < |PatternOf(route)| && PatternOf(route)[n].Param?
    ensures route.path != ""
  {
    assert Segments("", 0) == [""];
    assert PathSegments("") == [""];
  }

  /** A registered pattern new to the base is not the pattern of a rejected registration. */
  lemma NotTheRejected(strict: bool, routes: seq<Route>, bad: Route, p: Pattern, n: nat)
    requires var o := Register(RegisterAll(strict, routes), strict, bad).1; o != Registered && o != Conflict
    requires WellFormed(p) && n <= |p| && Unwalked(RegisterAll(strict, routes).walks, p[..n])
    ensures p != PatternOf(bad)
  {
    var base := RegisterAll(strict, routes);
    RecordedAlways(strict, routes);
    RegisterIs(base, strict, bad);
    hide RegisterAll, Register, WellFormed, ParsePattern, Unwalked;
    if p == PatternOf(bad) {
      assert (bad.verb, p) in base.table;
      assert p in base.walks;
      WalkedThrough(base.walks, p, p[..n]);
    }
  }

  lemma DistinctForms(strict: bool, routes: seq<Route>, bad: Route, later: seq<Route>, r: Route, s: Route)
    requires strict && NoRenaming(strict, bad, later) && r in later && s in later
    requires PatternOf(r) != PatternOf(s) && PatternOf(r) != PatternOf(bad) && PatternOf(s) != PatternOf(bad)
    requires Claimed(RegisterAll(strict, routes + later), r) && Claimed(RegisterAll(strict, routes + later), s)
    ensures Norm(r.verb, r.path) != Norm(s.verb, s.path)
    ensures Norm(r.verb, r.path) != Norm(bad.verb, bad.path) && Norm(s.verb, s.path) != Norm(bad.verb, bad.path)
  {
    hide Norm, ParsePattern, PathSegments, RegisterAll;
    assert !Renames(bad, r) && !Renames(bad, s);
  }

  /** If nothing tells the attempt apart, every preference its walk could change is settled already. */
  lemma NotTellingSettles(strict: bool, routes: seq<Route>, bad: Route, later: seq<Route>, m: Method, path: string, u: Pattern, p: Pattern, q: Pattern)
    requires var o := Register(RegisterAll(strict, routes), strict, bad).1; o != Registered && o != Conflict
    requires NoRenaming(strict, bad, later) && !Telling(strict, RegisterAll(strict, routes), bad)
    requires u <= Walked(PatternOf(bad)) && PartAt(RegisterAll(strict, routes).walks, u, p, q)
    requires BothCandidates(RegisterAll(strict, routes + later), m, PathSegments(path), p, q)
    ensures !Undecided(RegisterAll(strict, routes), u, m, PathSegments(path))
  {
    hide *;
    var base, segs, n := RegisterAll(strict, routes), PathSegments(path), |u|;
    PartAtIs(base.walks, u, p, q);
    CandidatesMatch(RegisterAll(strict, routes + later), m, segs, p, q);
    var r := NewIsAdded(strict, routes, later, m, segs, p, n);
    var s := NewIsAdded(strict, routes, later, m, segs, q, n);
    NotTheRejected(strict, routes, bad, p, n);
    NotTheRejected(strict, routes, bad, q, n);
    HasParam(r, n - 1);
    HasParam(s, n - 1);
    if strict { DistinctForms(strict, routes, bad, later, r, s); }
    if Undecided(base, u, m, segs) { ToldApart(strict, base, bad, u, r, s, m, path); }
  }

  lemma PartAtIs(w: seq<Pattern>, u: Pattern, p: Pattern, q: Pattern)
    requires PartAt(w, u, p, q)
    ensures 1 <= |u| <= |p| && |u| <= |q| && p[|u| - 1].Param? && q[|u| - 1].Param? && p != q
    ensures p[..|u| - 1] == q[..|u| - 1] && p[|u| - 1] != q[|u| - 1] && q[..|u|] == u
    ensures Unwalked(w, p[..|u|]) && Unwalked(w, q[..|u|])
  {
    assert q[..|u|] == u && u[..|u| - 1] == q[..|u| - 1];
  }

  lemma CandidatesMatch(reg: Registry, m: Method, segs: seq<string>, p: Pattern, q: Pattern)
    requires BothCandidates(reg, m, segs, p, q)
    ensures Candidate(reg.table, [], segs, m, p) && Candidate(reg.table, [], segs, m, q) && Matches(p, segs) && Matches(q, segs)
  {}

  lemma ToldApart(strict: bool, reg: Registry, bad: Route, u: Pattern, r: Route, s: Route, m: Method, path: string)
    requires !Telling(strict, reg, bad) && Register(reg, strict, bad).1 != Conflict
    requires u <= Walked(PatternOf(bad)) && PartAt(reg.walks, u, PatternOf(r), PatternOf(s))
    requires Serves(r.verb, m) && Serves(s.verb, m) && WellFormed(PatternOf(r)) && WellFormed(PatternOf(s))
    requires Matches(PatternOf(r), PathSegments(path)) && Matches(PatternOf(s), PathSegments(path))
    requires strict ==>
          && !Ambiguous(reg, r) && !Ambiguous(reg, s)
          && Norm(r.verb, r.path) != Norm(s.verb, s.path)
          && Norm(r.verb, r.path) != Norm(bad.verb, bad.path) && Norm(s.verb, s.path) != Norm(bad.verb, bad.path)
    ensures !Undecided(reg, u, m, PathSegments(path))
  {
    hide PartAt, Undecided, PathSegments, PatternOf, Norm, Ambiguous, Matches, Register, Walked, WellFormed;
    assert !TellsApart(strict, reg, bad, u, r, s, m, path);
  }

  lemma NotTellingIsTraceless(strict: bool, routes: seq<Route>, bad: Route, later: seq<Route>, m: Method, path: string,
                              out: map<string, string>, a: Answer)
    requires Register(RegisterAll(strict, routes), strict, bad).1 != Registered
    requires NoRenaming(strict, bad, later) && !Telling(strict, RegisterAll(strict, routes), bad)
    ensures SameAnswer(strict, routes, bad, later, m, path, out, a)
  {
    var base, reg, reg' := RegisterAll(strict, routes), RegisterAll(strict, routes + later), RegisterAll(strict, routes + [bad] + later);
    RegisterIs(base, strict, bad);
    if Register(base, strict, bad).1 == Conflict {
      Unchanged(strict, routes, bad, later);
    } else {
      var walked := Couple(strict, routes, bad, later);
      var x := Walked(PatternOf(bad));
      RecordedAlways(strict, routes);
      GrownRun(strict, routes, later);
      assert Settled(base, x, reg, m, PathSegments(path)) by {
        hide *;
        hide RegisterAll;
        forall u, p, q | u <= x && PartAt(base.walks, u, p, q) && BothCandidates(reg, m, PathSegments(path), p, q)
          ensures !Undecided(base, u, m, PathSegments(path))
        {
          NotTellingSettles(strict, routes, bad, later, m, path, u, p, q);
        }
        SettledIs(base, x, reg, m, PathSegments(path));
      }
      AnswersAgree(base, x, walked, reg, reg'.(normalized := reg.normalized), m, path, out, a);
      AnswersIgnoreNormalized(reg', reg.normalized, m, path, out, a);
    }
  }

  lemma SettledIs(base: Registry, x: Pattern, reg: Registry, m: Method, segs: seq<string>)
    requires forall u, p, q :: u <= x && PartAt(base.walks, u, p, q) && BothCandidates(reg, m, segs, p, q) ==> !Undecided(base, u, m, segs)
    ensures Settled(base, x, reg, m, segs)
  {}

  /** A registration refused for a conflict changes nothing at all. */
  lemma {:induction false} Unchanged(strict: bool, routes: seq<Route>, bad: Route, later: seq<Route>)
    requires Register(RegisterAll(strict, routes), strict, bad).0 == RegisterAll(strict, routes)
    ensures RegisterAll(strict, routes + [bad] + later) == RegisterAll(strict, routes + later)
  {
    hide RegisterAll, Register;
    if later == [] {
      assert routes + [] == routes && routes + [bad] + [] == routes + [bad];
      RegisterAppends(strict, routes, bad);
    } else {
      var n := |later| - 1;
      Unchanged(strict, routes, bad, later[..n]);
      Last(routes, later);
      Last(routes + [bad], later);
      RegisterAppends(strict, routes + later[..n], later[n]);
      RegisterAppends(strict, routes + [bad] + later[..n], later[n]);
    }
  }

  // ---- something to tell: two later routes answer the other way round ----------------------------------------

  lemma {:induction false} BetterAtPart(walks: seq<Pattern>, prefix: Pattern, i: nat, p: Pattern, q: Pattern)
    requires i < |p| && i < |q| && p[..i] == q[..i] && p[i].Param? && q[i].Param? && p[i] != q[i]
    requires FirstWalk(walks, prefix + p[..i + 1]) < FirstWalk(walks, prefix + q[..i + 1])
    ensures Better(walks, prefix, p, q)
    decreases i
  {
    if i == 0 {
      assert p[..1] == [p[0]] && q[..1] == [q[0]];
    } else {
      assert p[..i][0] == q[..i][0];
      Deeper(prefix, p, i - 1);
      Deeper(prefix, q, i - 1);
      BetterAtPart(walks, prefix + [p[0]], i - 1, p[1..], q[1..]);
    }
  }

  /** Of two patterns that part at new nodes, the one whose node is walked first is preferred. */
  lemma FirstComeFirst(w: seq<Pattern>, l: seq<Pattern>, n: nat, p: Pattern, q: Pattern)
    requires 1 <= n <= |p| && n <= |q| && p[..n - 1] == q[..n - 1] && p[n - 1] != q[n - 1]
    requires p[n - 1].Param? && q[n - 1].Param? && Unwalked(w, p[..n]) && Unwalked(w, q[..n])
    requires l != [] && n <= |l[0]| && l[0][..n] == p[..n]
    ensures Better(w + l, [], p, q)
  {
    var a, b := p[..n], q[..n];
    assert [] + a == a && [] + b == b && a[n - 1] != b[n - 1];
    assert a <= l[0] && !(b <= l[0]);
    FirstWalkConcat(w, l, a);
    FirstWalkConcat(w, l, b);
    BetterAtPart(w + l, [], n - 1, p, q);
  }

  lemma BestHere(base: Registry, reg: Registry, more: seq<Pattern>, m: Method, segs: seq<string>, u: Pattern, z: Pattern, other: Pattern)
    requires Recorded(base) && reg.walks == base.walks + more
    requires forall c :: Candidate(reg.table, [], segs, m, c) ==> Candidate(base.table, [], segs, m, c) || c == z || c == other
    requires Candidate(reg.table, [], segs, m, z) && Better(reg.walks, [], z, other)
    requires Undecided(base, u, m, segs) && Through(base.walks, [], u, z) && Unwalked(base.walks, u)
    ensures Best(reg, [], segs, m, z)
  {
    assert [] + z == z && [] + u == u;
    forall c | Candidate(reg.table, [], segs, m, c) && c != z ensures Better(reg.walks, [], z, c) {
      if c != other {
        assert [] + c == c;
        StillCandidate(base, base, m, segs, c);
        Yields(base.walks, more, [], c, u, z, segs);
      }
    }
  }

  /** Two routes that are in nobody's way. */
  lemma AddTwo(strict: bool, before: seq<Route>, r: Route, s: Route)
    requires var reg, p, q := RegisterAll(strict, before), PatternOf(r), PatternOf(s);
      && WellFormed(p) && WellFormed(q) && p != q && (r.verb, p) !in reg.table && (s.verb, q) !in reg.table
      && (strict ==> !Ambiguous(reg, r) && !Ambiguous(reg, s) && Norm(r.verb, r.path) != Norm(s.verb, s.path))
    ensures var reg, p, q := RegisterAll(strict, before), PatternOf(r), PatternOf(s);
      var reg' := RegisterAll(strict, before + [r, s]);
      && reg'.table == reg.table[(r.verb, p) := r][(s.verb, q) := s] && reg'.walks == reg.walks + [p, q]
  {
    hide *;
    var reg, p, q := RegisterAll(strict, before), PatternOf(r), PatternOf(s);
    WalkedWhole(p);
    WalkedWhole(q);
    RegisterIs(reg, strict, r);
    var reg1 := Register(reg, strict, r).0;
    if strict { UnambiguousAfter(reg, r, s); }
    RegisterIs(reg1, strict, s);
    RegisterAppends(strict, before, r);
    RegisterAppends(strict, before + [r], s);
    assert before + [r, s] == before + [r] + [s];
    assert reg.walks + [p] + [q] == reg.walks + [p, q];
  }

  lemma UnambiguousAfter(reg: Registry, r: Route, s: Route)
    requires !Ambiguous(reg, r) && !Ambiguous(reg, s) && Norm(r.verb, r.path) != Norm(s.verb, s.path)
    ensures !Ambiguous(Register(reg, true, r).0, s)
  {
    RegisterIs(reg, true, r);
    hide Register, Norm;
  }

  /** What serves a request once both are there. */
  lemma ServedByTwo(base: Registry, table: Table, r: Route, s: Route, m: Method, segs: seq<string>, p: Pattern, q: Pattern)
    requires p != q && table == base.table[(r.verb, p) := r][(s.verb, q) := s]
    requires forall k :: k in base.table ==> k.1 != p && k.1 != q
    requires Serves(r.verb, m) && Serves(s.verb, m) && Matches(p, segs) && Matches(q, segs)
    ensures Serving(table, p, m) == Some(r) && Serving(table, q, m) == Some(s)
    ensures Candidate(table, [], segs, m, p) && Candidate(table, [], segs, m, q)
    ensures forall c :: Candidate(table, [], segs, m, c) ==> Candidate(base.table, [], segs, m, c) || c == p || c == q
  {
    assert [] + p == p && [] + q == q;
    assert forall c: Pattern :: [] + c == c;
  }

  /** Registered last, first the one that parts from the attempt, then the one that follows it. */
  lemma RejectedAttemptReordersLaterRoutes(strict: bool, routes: seq<Route>, bad: Route, u: Pattern, r: Route, s: Route, m: Method, path: string)
    requires var o := Register(RegisterAll(strict, routes), strict, bad).1; o != Registered && o != Conflict
    requires TellsApart(strict, RegisterAll(strict, routes), bad, u, r, s, m, path)
    ensures Best(RegisterAll(strict, routes + [r, s]), [], PathSegments(path), m, PatternOf(r))
    ensures Serving(RegisterAll(strict, routes + [r, s]).table, PatternOf(r), m) == Some(r)
    ensures Best(RegisterAll(strict, routes + [bad] + [r, s]), [], PathSegments(path), m, PatternOf(s))
    ensures Serving(RegisterAll(strict, routes + [bad] + [r, s]).table, PatternOf(s), m) == Some(s)
  {
    hide *;
    var base, base', segs, p, q := RegisterAll(strict, routes), RegisterAll(strict, routes + [bad]), PathSegments(path), PatternOf(r), PatternOf(s);
    var x, n := Walked(PatternOf(bad)), |u|;
    RecordedAlways(strict, routes);
    RegisterAppends(strict, routes, bad);
    RegisterIs(base, strict, bad);
    TellsApartIs(strict, base, bad, u, r, s, m, path);
    StillUnambiguous(strict, base, bad, r, s);
    NewPattern(base, u, p, q);
    BothThrough(base.walks, u, p, q);
    PartAtIs(base.walks, u, p, q);
    AddTwo(strict, routes, r, s);
    AddTwo(strict, routes + [bad], r, s);
    var reg, reg' := RegisterAll(strict, routes + [r, s]), RegisterAll(strict, routes + [bad] + [r, s]);
    ServedByTwo(base, reg.table, r, s, m, segs, p, q);
    ServedByTwo(base, reg'.table, r, s, m, segs, p, q);
    assert base.walks + [x] + [p, q] == base.walks + ([x] + [p, q]);
    FirstComeFirst(base.walks, [p, q], n, p, q);
    FirstComeFirst(base.walks, [x] + [p, q], n, q, p);
    BestHere(base, reg, [p, q], m, segs, u, p, q);
    BestHere(base, reg', [x] + [p, q], m, segs, u, q, p);
  }

  lemma TellsApartIs(strict: bool, reg: Registry, bad: Route, u: Pattern, r: Route, s: Route, m: Method, path: string)
    requires TellsApart(strict, reg, bad, u, r, s, m, path)
    ensures var p, q, segs := PatternOf(r), PatternOf(s), PathSegments(path);
      && PartAt(reg.walks, u, p, q) && Admissible(strict, reg, bad, r, s) && WellFormed(p) && WellFormed(q)
      && Serves(r.verb, m) && Serves(s.verb, m) && Matches(p, segs) && Matches(q, segs) && Undecided(reg, u, m, segs)
      && |u| <= |Walked(PatternOf(bad))| && Walked(PatternOf(bad))[..|u|] == u && Unwalked(reg.walks, u)
      && (strict ==> !Ambiguous(reg, r) && !Ambiguous(reg, s) && Norm(r.verb, r.path) != Norm(s.verb, s.path))
  {
    hide Undecided, Ambiguous, Norm, Matches, PathSegments, WellFormed, PatternOf, Walked;
  }

  lemma NewPattern(base: Registry, u: Pattern, p: Pattern, q: Pattern)
    requires Recorded(base) && PartAt(base.walks, u, p, q)
    ensures p != q && forall k :: k in base.table ==> k.1 != p && k.1 != q
  {
    PartAtIs(base.walks, u, p, q);
    forall k | k in base.table ensures k.1 != p && k.1 != q {
      assert k.1 in base.walks;
      NotWalked(base.walks, p, |u|);
      NotWalked(base.walks, q, |u|);
    }
  }

  lemma NotWalked(w: seq<Pattern>, p: Pattern, n: nat)
    requires n <= |p| && Unwalked(w, p[..n])
    ensures p !in w
  {
    if p in w { WalkedThrough(w, p, p[..n]); }
  }

  lemma StillUnambiguous(strict: bool, base: Registry, bad: Route, r: Route, s: Route)
    requires Admissible(strict, base, bad, r, s) && Register(base, strict, bad).1 != Conflict
    ensures strict ==> !Ambiguous(Register(base, strict, bad).0, r) && !Ambiguous(Register(base, strict, bad).0, s)
  {
    RegisterIs(base, strict, bad);
    hide Register, Norm, WellFormed, Walked, PatternOf;
  }

  /**
    A rejected registration is without trace for every later lookup, whatever is registered in
    between, exactly when it made no parameter node that two admissible routes could contend for.
   */
  lemma RejectionIsTracelessExactlyWhen(strict: bool, routes: seq<Route>, bad: Route)
    requires Register(RegisterAll(strict, routes), strict, bad).1 != Registered
    ensures Traceless(strict, routes, bad) <==> !Telling(strict, RegisterAll(strict, routes), bad)
  {
    if Telling(strict, RegisterAll(strict, routes), bad) {
      TellingTells(strict, routes, bad);
    } else {
      forall later, m, path, out, a | NoRenaming(strict, bad, later) ensures SameAnswer(strict, routes, bad, later, m, path, out, a) {
        NotTellingIsTraceless(strict, routes, bad, later, m, path, out, a);
      }
    }
  }

  lemma TellingTells(strict: bool, routes: seq<Route>, bad: Route)
    requires Register(RegisterAll(strict, routes), strict, bad).1 != Registered && Telling(strict, RegisterAll(strict, routes), bad)
    ensures !Traceless(strict, routes, bad)
  {
    var base := RegisterAll(strict, routes);
    var u, r, s, m, path :| TellsApart(strict, base, bad, u, r, s, m, path);
    NoneRenames(strict, base, bad, u, r, s, m, path);
    TellsApartIs(strict, base, bad, u, r, s, m, path);
    hide RegisterAll, Register, PatternOf, PathSegments, Matches, TellsApart, Telling, NoRenaming, Best, PartAt;
    RejectedAttemptReordersLaterRoutes(strict, routes, bad, u, r, s, m, path);
    var a := TheAnswer(RegisterAll(strict, routes + [r, s]), m, path, PatternOf(r));
    var b := TheAnswer(RegisterAll(strict, routes + [bad] + [r, s]), m, path, PatternOf(s));
    PartAtIs(base.walks, u, PatternOf(r), PatternOf(s));
    if Answers(RegisterAll(strict, routes + [bad] + [r, s]), m, path, map[], a) {
      AnswerIsUnique(RegisterAll(strict, routes + [bad] + [r, s]), m, path, map[], a, b);
    }
    assert !SameAnswer(strict, routes, bad, [r, s], m, path, map[], a);
  }

  lemma NoneRenames(strict: bool, reg: Registry, bad: Route, u: Pattern, r: Route, s: Route, m: Method, path: string)
    requires TellsApart(strict, reg, bad, u, r, s, m, path)
    ensures NoRenaming(strict, bad, [r, s])
  {
    hide Norm, PatternOf, Undecided, PathSegments, Matches, Ambiguous, PartAt;
  }

  lemma TheAnswer(reg: Registry, m: Method, path: string, p: Pattern) returns (a: Answer)
    requires Best(reg, [], PathSegments(path), m, p)
    ensures Answers(reg, m, path, map[], a) && a.Found? && Some(a.route) == Serving(reg.table, p, m)
  {
    assert [] + p == p;
    a := Found(Serving(reg.table, p, m).value, WriteParams(map[], Bindings(p, PathSegments(path))));
  }
}
