/** What the lookup specification guarantees, for every sequence of registrations. */
module RouterTheorems {
  import opened OptionType
  import opened RouterSpec

  // ---- preference is a strict order on the patterns matching one path ----------------------

  lemma BetterAsymmetric(walks: seq<Pattern>, prefix: Pattern, p: Pattern, q: Pattern)
    requires Better(walks, prefix, p, q)
    ensures !Better(walks, prefix, q, p)
    decreases |p|
  {
    if p[0] == q[0] { BetterAsymmetric(walks, prefix + [p[0]], p[1..], q[1..]); }
  }

  lemma BestUnique(reg: Registry, prefix: Pattern, segs: seq<string>, m: Method, p: Pattern, q: Pattern)
    requires Best(reg, prefix, segs, m, p) && Best(reg, prefix, segs, m, q)
    ensures p == q
  {
    if p != q { BetterAsymmetric(reg.walks, prefix, p, q); }
  }

  lemma FoundHasCandidate(reg: Registry, m: Method, path: string, out: map<string, string>, a: Answer) returns (p: Pattern)
    requires Answers(reg, m, path, out, a) && a.Found?
    ensures var segs := PathSegments(path);
      && Best(reg, [], segs, m, p) && Serving(reg.table, p, m) == Some(a.route)
      && a.params == WriteParams(out, Bindings(p, segs))
      && (Offered(reg.table, [], segs, m) || Offered(reg.table, [], segs, GET))
  {
    var segs := PathSegments(path);
    p :| Best(reg, [], segs, m, p) && Serving(reg.table, p, m) == Some(a.route)
      && a.params == WriteParams(out, Bindings(p, segs));
    assert [] + p == p;
  }

  /** The specification determines the answer. */
  lemma AnswerIsUnique(reg: Registry, m: Method, path: string, out: map<string, string>, a: Answer, b: Answer)
    requires Answers(reg, m, path, out, a) && Answers(reg, m, path, out, b)
    ensures a == b
  {
    if a.Found? {
      var p := FoundHasCandidate(reg, m, path, out, a);
      if b.Found? {
        var q := FoundHasCandidate(reg, m, path, out, b);
        BestUnique(reg, [], PathSegments(path), m, p, q);
      }
    } else if b.Found? {
      var q := FoundHasCandidate(reg, m, path, out, b);
    }
  }

  // ---- a registration that throws ----------------------------------------------------------

  /** Every registered pattern was walked when it was registered. */
  ghost predicate Recorded(reg: Registry) {
    forall k :: k in reg.table ==> k.1 in reg.walks
  }

  lemma WalkedWhole(p: Pattern)
    requires WellFormed(p)
    ensures Walked(p) == p
  {
    if p != [] {
      assert WellFormed(p[1..]) by {
        forall i | 0 <= i < |p[1..]| - 1 ensures p[1..][i] != Wild { assert p[1..][i] == p[i + 1]; }
      }
      WalkedWhole(p[1..]);
    }
  }

  lemma RecordedStep(reg: Registry, strict: bool, route: Route)
    requires Recorded(reg)
    ensures Recorded(Register(reg, strict, route).0)
  {
    var p := ParsePattern(PathSegments(route.path));
    if WellFormed(p) { WalkedWhole(p); }
    var r := Register(reg, strict, route).0;
    forall k | k in r.table ensures k.1 in r.walks {
      if k in reg.table { assert k.1 in reg.walks; }
    }
  }

  lemma {:induction false} RecordedAlways(strict: bool, routes: seq<Route>)
    ensures Recorded(RegisterAll(strict, routes))
  {
    if routes != [] {
      RecordedAlways(strict, routes[..|routes| - 1]);
      RecordedStep(RegisterAll(strict, routes[..|routes| - 1]), strict, routes[|routes| - 1]);
    }
  }

  lemma FirstWalkExtend(walks: seq<Pattern>, w: Pattern, prefix: Pattern)
    ensures FirstWalk(walks + [w], prefix) ==
      if FirstWalk(walks, prefix) < |walks| then FirstWalk(walks, prefix)
      else if prefix <= w then |walks| else |walks| + 1
  {
    if walks != [] {
      assert (walks + [w])[1..] == walks[1..] + [w];
    }
  }

  lemma WalkedPrefix(walks: seq<Pattern>, p: Pattern, prefix: Pattern)
    requires p in walks && prefix <= p
    ensures FirstWalk(walks, prefix) < |walks|
  {
    var n :| 0 <= n < |walks| && walks[n] == p;
  }

  /** Later walks do not reorder patterns that were walked before. */
  lemma BetterStable(walks: seq<Pattern>, w: Pattern, prefix: Pattern, p: Pattern, q: Pattern)
    requires prefix + p in walks && prefix + q in walks
    ensures Better(walks + [w], prefix, p, q) == Better(walks, prefix, p, q)
    decreases |p|
  {
    if p != [] && q != [] {
      assert prefix + p == prefix + [p[0]] + p[1..];
      assert prefix + q == prefix + [q[0]] + q[1..];
      if p[0] == q[0] {
        BetterStable(walks, w, prefix + [p[0]], p[1..], q[1..]);
      } else {
        WalkedPrefix(walks, prefix + p, prefix + [p[0]]);
        WalkedPrefix(walks, prefix + q, prefix + [q[0]]);
        FirstWalkExtend(walks, w, prefix + [p[0]]);
        FirstWalkExtend(walks, w, prefix + [q[0]]);
      }
    }
  }

  lemma BestStable(reg: Registry, w: Pattern, segs: seq<string>, m: Method, p: Pattern)
    requires Recorded(reg)
    ensures Best(reg.(walks := reg.walks + [w]), [], segs, m, p) == Best(reg, [], segs, m, p)
  {
    forall q | Candidate(reg.table, [], segs, m, p) && Candidate(reg.table, [], segs, m, q)
      ensures Better(reg.walks + [w], [], p, q) == Better(reg.walks, [], p, q)
    {
      assert [] + p == p && [] + q == q;
      assert p in reg.walks && q in reg.walks;
      BetterStable(reg.walks, w, [], p, q);
    }
  }

  lemma AnswersStable(reg: Registry, w: Pattern, m: Method, path: string, out: map<string, string>, a: Answer)
    requires Recorded(reg)
    ensures Answers(reg.(walks := reg.walks + [w]), m, path, out, a) == Answers(reg, m, path, out, a)
  {
    forall p ensures Best(reg.(walks := reg.walks + [w]), [], PathSegments(path), m, p) == Best(reg, [], PathSegments(path), m, p) {
      BestStable(reg, w, PathSegments(path), m, p);
    }
  }

  /** A registration that throws, for whatever reason, changes no lookup result. */
  lemma ThrowingRegistrationChangesNoAnswer(strict: bool, routes: seq<Route>, bad: Route, m: Method, path: string,
                                            out: map<string, string>, a: Answer)
    requires Register(RegisterAll(strict, routes), strict, bad).1 != Registered
    ensures Answers(RegisterAll(strict, routes + [bad]), m, path, out, a) == Answers(RegisterAll(strict, routes), m, path, out, a)
  {
    var reg := RegisterAll(strict, routes);
    RecordedAlways(strict, routes);
    assert (routes + [bad])[..|routes|] == routes;
    var w := Walked(ParsePattern(PathSegments(bad.path)));
    AnswersStable(reg, w, m, path, out, a);
    AnswersIgnoreNormalized(reg.(walks := reg.walks + [w]), RegisterAll(strict, routes + [bad]).normalized, m, path, out, a);
  }

  lemma AnswersIgnoreNormalized(reg: Registry, n: map<string, string>, m: Method, path: string, out: map<string, string>, a: Answer)
    ensures Answers(reg.(normalized := n), m, path, out, a) == Answers(reg, m, path, out, a)
  {
    forall p ensures Best(reg.(normalized := n), [], PathSegments(path), m, p) == Best(reg, [], PathSegments(path), m, p) {}
  }

  lemma RegisterAppends(strict: bool, routes: seq<Route>, route: Route)
    ensures RegisterAll(strict, routes + [route]) == Register(RegisterAll(strict, routes), strict, route).0
  {
    assert (routes + [route])[..|routes|] == routes;
  }
}
