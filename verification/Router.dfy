/** The router: registration grows the trie in place, lookup backtracks over it. */
module Router {
  import opened OptionType
  import opened RouterSpec
  import opened RouterTheorems
  import opened RouterTrie

  // ---- candidates, seen from a node ---------------------------------------------------------

  /** The segments left below a child: a wildcard swallows all of them. */
  function Below(g: Seg, segs: seq<string>): seq<string>
    requires segs != []
  {
    if g.Wild? then [] else segs[1..]
  }

  predicate Accepts(g: Seg, seg: string) {
    g.Lit? ==> g.text == seg
  }

  /** A matching label goes through a child of the node. */
  lemma MatchHead(nodes: seq<Node>, labels: seq<Pattern>, i: nat, segs: seq<string>, q: Pattern)
    requires Labelled(nodes, labels) && Linked(nodes, labels) && i < |nodes| && labels[i] + q in labels
    requires segs != [] && Matches(q, segs)
    ensures q != [] && Accepts(q[0], segs[0]) && Child(nodes[i], q[0]).Some?
    ensures var c := Child(nodes[i], q[0]).value;
      c < |nodes| && labels[c] == labels[i] + [q[0]] && Matches(q[1..], Below(q[0], segs))
  {
    HeadLabelled(nodes, labels, labels[i], q);
    var c :| 0 <= c < |labels| && labels[c] == labels[i] + [q[0]];
  }

  lemma HeadLabelled(nodes: seq<Node>, labels: seq<Pattern>, d: Pattern, q: Pattern)
    requires Labelled(nodes, labels) && d + q in labels && q != []
    ensures d + [q[0]] in labels
  {
    PrefixLabelled(nodes, labels, d + q, |d| + 1);
    assert (d + q)[..|d| + 1] == d + [q[0]];
  }

  lemma MatchCons(g: Seg, b: Pattern, segs: seq<string>)
    requires segs != [] && Accepts(g, segs[0]) && Matches(b, Below(g, segs))
    ensures Matches([g] + b, segs)
    ensures Bindings([g] + b, segs) ==
      (match g case Lit(_) => [] case Param(key) => [(key, segs[0])] case Wild => [("*", Join(segs))])
      + Bindings(b, Below(g, segs))
  {
    assert ([g] + b)[1..] == b;
    if g.Wild? { assert b == []; }
  }

  lemma RouteStored(nodes: seq<Node>, labels: seq<Pattern>, reg: Registry, i: nat, m: Method)
    requires |labels| == |nodes| && Represents(nodes, labels, reg.table, reg.walks) && i < |nodes|
    ensures m in nodes[i].routes <==> (m, labels[i]) in reg.table
  {}

  lemma BestMatches(reg: Registry, prefix: Pattern, segs: seq<string>, m: Method, b: Pattern)
    requires Best(reg, prefix, segs, m, b)
    ensures Matches(b, segs)
  {}

  /** The best candidate below a child is the best below the node among those through the child. */
  lemma BestThrough(reg: Registry, prefix: Pattern, segs: seq<string>, m: Method, g: Seg, b: Pattern)
    requires segs != [] && Accepts(g, segs[0]) && Best(reg, prefix + [g], Below(g, segs), m, b)
    requires forall q :: Candidate(reg.table, prefix, segs, m, q) && q != [] && q[0] != g ==> Before(reg.walks, prefix, g, q[0])
    ensures Best(reg, prefix, segs, m, [g] + b)
  {
    MatchCons(g, b, segs);
    assert prefix + [g] + b == prefix + ([g] + b);
    forall q | Candidate(reg.table, prefix, segs, m, q) && q != [g] + b
      ensures Better(reg.walks, prefix, [g] + b, q)
    {
      assert ([g] + b)[1..] == b;
      if q[0] == g {
        assert prefix + [g] + q[1..] == prefix + q && q == [g] + q[1..];
        assert Candidate(reg.table, prefix + [g], Below(g, segs), m, q[1..]);
      }
    }
  }

  /** A candidate below a node is a candidate below one of its children. */
  lemma CandidateHead(nodes: seq<Node>, labels: seq<Pattern>, table: Table, i: nat, segs: seq<string>, m: Method, q: Pattern)
    requires Labelled(nodes, labels) && Linked(nodes, labels) && (forall k :: k in table ==> k.1 in labels)
    requires i < |nodes| && segs != []
    requires Candidate(table, labels[i], segs, m, q)
    ensures q != [] && Accepts(q[0], segs[0]) && Child(nodes[i], q[0]).Some?
    ensures var c := Child(nodes[i], q[0]).value;
      c < |nodes| && labels[c] == labels[i] + [q[0]] && Candidate(table, labels[c], Below(q[0], segs), m, q[1..])
  {
    assert labels[i] + q in labels && Matches(q, segs);
    assert |labels| == |nodes|;
    hide Labelled, Linked, Matches, Child;
    MatchHead(nodes, labels, i, segs, q);
    SplitHead(labels[i], q);
  }

  lemma OfferedHead(nodes: seq<Node>, labels: seq<Pattern>, reg: Registry, i: nat, segs: seq<string>, m: Method, q: Pattern)
    requires |labels| == |nodes| && Represents(nodes, labels, reg.table, reg.walks) && i < |nodes| && segs != []
    requires (m, labels[i] + q) in reg.table && Matches(q, segs)
    ensures q != [] && Accepts(q[0], segs[0]) && Child(nodes[i], q[0]).Some?
    ensures Offered(reg.table, labels[i] + [q[0]], Below(q[0], segs), m)
  {
    TableLabelled(nodes, labels, reg, m, labels[i] + q);
    MatchHead(nodes, labels, i, segs, q);
    SplitHead(labels[i], q);
  }

  lemma TableLabelled(nodes: seq<Node>, labels: seq<Pattern>, reg: Registry, m: Method, p: Pattern)
    requires |labels| == |nodes| && Represents(nodes, labels, reg.table, reg.walks) && (m, p) in reg.table
    ensures p in labels && Labelled(nodes, labels) && Linked(nodes, labels)
  {
    assert (m, p).1 in labels;
  }

  lemma SplitHead(d: Pattern, q: Pattern)
    requires q != []
    ensures d + q == d + [q[0]] + q[1..]
  {}

  lemma OfferedCons(table: Table, prefix: Pattern, g: Seg, segs: seq<string>, m: Method)
    requires segs != [] && Accepts(g, segs[0]) && Offered(table, prefix + [g], Below(g, segs), m)
    ensures Offered(table, prefix, segs, m)
  {
    var b :| (m, prefix + [g] + b) in table && Matches(b, Below(g, segs));
    MatchCons(g, b, segs);
    assert prefix + [g] + b == prefix + ([g] + b);
  }

  // ---- registration, seen from a node -------------------------------------------------------

  lemma BeginWalk(nodes: seq<Node>, labels: seq<Pattern>, table: Table, walks: seq<Pattern>)
    requires Represents(nodes, labels, table, walks)
    ensures Represents(nodes, labels, table, walks + [[]])
  {
    forall c | 0 <= c < |labels| && labels[c] != []
      ensures FirstWalk(walks + [[]], labels[c]) == FirstWalk(walks, labels[c])
    {
      FirstWalkExtend(walks, [], labels[c]);
    }
    forall w | w in walks + [[]] ensures w in labels { assert w in walks || w == labels[0]; }
    AgedSame(nodes, labels, walks, walks + [[]]);
  }

  /** The walk stands behind the segments `d` of the pattern `p`, at position `start` of the path. */
  ghost predicate Progress(p: Pattern, d: Pattern, path: string, start: nat) {
    && start <= |path| + 1 && p == d + ParsePattern(Segments(path, start))
    && WellFormed(d) && (start <= |path| ==> Wild !in d)
  }

  lemma ProgressOn(p: Pattern, d: Pattern, path: string, start: nat)
    requires start <= |path| && Progress(p, d, path, start)
    ensures var end := SegmentEnd(path, start); var seg := path[start..end];
      if seg == "*" && end != |path| then Walked(p) == d && !WellFormed(p)
      else Progress(p, d + [ParseSeg(seg)], path, end + 1)
  {
    var end := SegmentEnd(path, start);
    var g, rest := ParseSeg(path[start..end]), Segments(path, end + 1);
    assert Segments(path, start) == [path[start..end]] + rest;
    assert ParsePattern(Segments(path, start)) == [g] + ParsePattern(rest);
    if g == Wild && end != |path| {
      WalkStops(d, [g] + ParsePattern(rest));
    } else {
      assert p == d + [g] + ParsePattern(rest);
    }
  }

  lemma ProgressDone(p: Pattern, d: Pattern, path: string, start: nat)
    requires start > |path| && Progress(p, d, path, start)
    ensures p == d && WellFormed(p) && Walked(p) == p
  {
    assert Segments(path, start) == [];
    WalkedWhole(p);
  }

  lemma {:induction false} WalkStops(d: Pattern, rest: Pattern)
    requires Wild !in d && |rest| > 1 && rest[0] == Wild
    ensures Walked(d + rest) == d && !WellFormed(d + rest)
  {
    assert (d + rest)[|d|] == Wild;
    if d != [] {
      WalkStops(d[1..], rest);
      assert (d + rest)[1..] == d[1..] + rest;
    } else {
      assert d + rest == rest;
    }
  }

  lemma AddRoute(nodes: seq<Node>, labels: seq<Pattern>, table: Table, walks: seq<Pattern>, i: nat, route: Route)
    requires i < |nodes| && |labels| == |nodes| && Represents(nodes, labels, table, walks)
    ensures Represents(nodes[i := nodes[i].(routes := nodes[i].routes[route.verb := route])], labels,
                       table[(route.verb, labels[i]) := route], walks)
  {
    var nodes' := nodes[i := nodes[i].(routes := nodes[i].routes[route.verb := route])];
    forall a, g | 0 <= a < |nodes| ensures Child(nodes'[a], g) == Child(nodes[a], g) {}
    forall a | 0 <= a < |nodes| ensures nodes'[a].params == nodes[a].params {}
    forall a | 0 <= a < |nodes| ensures DistinctParams(nodes'[a]) { assert DistinctParams(nodes[a]); }
    AddRouteHolds(nodes, labels, table, i, route);
  }

  lemma AddRouteHolds(nodes: seq<Node>, labels: seq<Pattern>, table: Table, i: nat, route: Route)
    requires i < |nodes| && Labelled(nodes, labels) && Holds(nodes, labels, table)
    ensures Holds(nodes[i := nodes[i].(routes := nodes[i].routes[route.verb := route])], labels,
                  table[(route.verb, labels[i]) := route])
  {}

  // ---- lookup, seen from a node ---------------------------------------------------------------

  lemma WriteParamsAppend(out: map<string, string>, bs: seq<(string, string)>, b: (string, string))
    ensures WriteParams(out, bs + [b]) == WriteParams(out, bs)[b.0 := b.1]
    decreases |bs|
  {
    if bs != [] {
      assert (bs + [b])[1..] == bs[1..] + [b];
      WriteParamsAppend(out[bs[0].0 := bs[0].1], bs[1..], b);
    }
  }

  lemma SegmentsHead(path: string, pos: nat)
    requires pos <= |path|
    ensures var segs := Segments(path, pos);
      segs != [] && segs[0] == path[pos..SegmentEnd(path, pos)] && segs[1..] == Segments(path, SegmentEnd(path, pos) + 1)
    ensures Segments(path, |path| + 1) == []
  {
    var head, rest := path[pos..SegmentEnd(path, pos)], Segments(path, SegmentEnd(path, pos) + 1);
    assert Segments(path, pos) == [head] + rest;
    assert ([head] + rest)[1..] == rest;
  }

  /** No candidate below the prefix starts with `g`. */
  ghost predicate RuledOut(table: Table, prefix: Pattern, segs: seq<string>, m: Method, g: Seg) {
    forall q :: Candidate(table, prefix, segs, m, q) && q != [] ==> q[0] != g
  }

  ghost predicate NoLiteral(table: Table, prefix: Pattern, segs: seq<string>, m: Method) {
    forall text :: RuledOut(table, prefix, segs, m, Lit(text))
  }

  lemma NoneBelow(table: Table, prefix: Pattern, segs: seq<string>, m: Method, g: Seg)
    requires segs != [] && NoCandidate(table, prefix + [g], Below(g, segs), m)
    ensures RuledOut(table, prefix, segs, m, g)
  {
    forall q | Candidate(table, prefix, segs, m, q) && q != [] && q[0] == g ensures false {
      assert prefix + q == prefix + [g] + q[1..];
      assert Candidate(table, prefix + [g], Below(g, segs), m, q[1..]);
    }
  }

  lemma NoChild(nodes: seq<Node>, labels: seq<Pattern>, reg: Registry, i: nat, segs: seq<string>, m: Method, g: Seg)
    requires |labels| == |nodes| && Represents(nodes, labels, reg.table, reg.walks)
    requires i < |nodes| && segs != [] && (Child(nodes[i], g).None? || !Accepts(g, segs[0]))
    ensures RuledOut(reg.table, labels[i], segs, m, g)
  {
    forall q | Candidate(reg.table, labels[i], segs, m, q) && q != [] ensures q[0] != g {
      CandidateHead(nodes, labels, reg.table, i, segs, m, q);
    }
  }

  lemma ChildLabel(nodes: seq<Node>, labels: seq<Pattern>, reg: Registry, i: nat, g: Seg)
    requires |labels| == |nodes| && Represents(nodes, labels, reg.table, reg.walks)
    requires i < |nodes| && Child(nodes[i], g).Some?
    ensures var c := Child(nodes[i], g).value; c < |nodes| && labels[c] == labels[i] + [g]
  {}

  lemma ParamChild(nodes: seq<Node>, labels: seq<Pattern>, reg: Registry, i: nat, j: nat)
    requires |labels| == |nodes| && Represents(nodes, labels, reg.table, reg.walks)
    requires i < |nodes| && j < |nodes[i].params|
    ensures Child(nodes[i], Param(nodes[i].params[j].0)).Some?
  {
    assert DistinctParams(nodes[i]);
  }

  lemma ParamIndex(params: seq<(string, nat)>, key: string) returns (t: nat)
    requires FindParam(params, key).Some?
    ensures t < |params| && params[t].0 == key
  {
    if params[0].0 == key { t := 0; } else {
      t := ParamIndex(params[1..], key);
      t := t + 1;
    }
  }

  ghost predicate TriedBefore(table: Table, prefix: Pattern, segs: seq<string>, m: Method, params: seq<(string, nat)>, j: nat)
    requires j <= |params|
  {
    forall t :: 0 <= t < j ==> RuledOut(table, prefix, segs, m, Param(params[t].0))
  }

  /** What a candidate can still start with once literals and the first j parameters are ruled out. */
  lemma Remaining(nodes: seq<Node>, labels: seq<Pattern>, reg: Registry, i: nat, segs: seq<string>, m: Method, j: nat, q: Pattern)
    returns (t: nat)
    requires Represents(nodes, labels, reg.table, reg.walks)
    requires i < |nodes| && segs != [] && j <= |nodes[i].params|
    requires NoLiteral(reg.table, labels[i], segs, m) && TriedBefore(reg.table, labels[i], segs, m, nodes[i].params, j)
    requires Candidate(reg.table, labels[i], segs, m, q)
    ensures q != [] && (q[0].Wild? ==> nodes[i].wild.Some?)
    ensures q[0].Wild? || (j <= t < |nodes[i].params| && q[0] == Param(nodes[i].params[t].0))
  {
    t := 0;
    CandidateHead(nodes, labels, reg.table, i, segs, m, q);
    assert forall text :: RuledOut(reg.table, labels[i], segs, m, Lit(text));
    match q[0] {
      case Lit(_) =>
      case Param(key) =>
        t := ParamIndex(nodes[i].params, key);
        assert q[0] == Param(nodes[i].params[t].0);
      case Wild =>
    }
  }

  lemma PreferLiteral(reg: Registry, prefix: Pattern, segs: seq<string>, m: Method, b: Pattern)
    requires segs != [] && Best(reg, prefix + [Lit(segs[0])], segs[1..], m, b)
    ensures Best(reg, prefix, segs, m, [Lit(segs[0])] + b)
  {
    BestThrough(reg, prefix, segs, m, Lit(segs[0]), b);
  }

  lemma OlderFirst(nodes: seq<Node>, labels: seq<Pattern>, reg: Registry, i: nat, j: nat, t: nat)
    requires Represents(nodes, labels, reg.table, reg.walks) && i < |nodes| && j < t < |nodes[i].params|
    ensures Before(reg.walks, labels[i], Param(nodes[i].params[j].0), Param(nodes[i].params[t].0))
  {
    hide Shaped, Holds;
  }

  lemma BeforeWild(walks: seq<Pattern>, prefix: Pattern, key: string)
    ensures Before(walks, prefix, Param(key), Wild)
  {}

  /** The oldest parameter not ruled out stands before whatever else a candidate may start with. */
  lemma ParamBefore(nodes: seq<Node>, labels: seq<Pattern>, reg: Registry, i: nat, segs: seq<string>, m: Method, j: nat, q: Pattern)
    requires Represents(nodes, labels, reg.table, reg.walks)
    requires i < |nodes| && segs != [] && j < |nodes[i].params|
    requires NoLiteral(reg.table, labels[i], segs, m) && TriedBefore(reg.table, labels[i], segs, m, nodes[i].params, j)
    requires Candidate(reg.table, labels[i], segs, m, q) && q != [] && q[0] != Param(nodes[i].params[j].0)
    ensures Before(reg.walks, labels[i], Param(nodes[i].params[j].0), q[0])
  {
    assert |labels| == |nodes|;
    hide *;
    var t := Remaining(nodes, labels, reg, i, segs, m, j, q);
    if q[0].Wild? {
      BeforeWild(reg.walks, labels[i], nodes[i].params[j].0);
    } else {
      OlderFirst(nodes, labels, reg, i, j, t);
    }
  }

  lemma PreferParam(nodes: seq<Node>, labels: seq<Pattern>, reg: Registry, i: nat, segs: seq<string>, m: Method, j: nat, b: Pattern)
    requires Represents(nodes, labels, reg.table, reg.walks)
    requires i < |nodes| && segs != [] && j < |nodes[i].params|
    requires NoLiteral(reg.table, labels[i], segs, m) && TriedBefore(reg.table, labels[i], segs, m, nodes[i].params, j)
    requires Best(reg, labels[i] + [Param(nodes[i].params[j].0)], segs[1..], m, b)
    ensures Best(reg, labels[i], segs, m, [Param(nodes[i].params[j].0)] + b)
  {
    assert |labels| == |nodes|;
    var g := Param(nodes[i].params[j].0);
    assert Accepts(g, segs[0]) && Below(g, segs) == segs[1..];
    hide *;
    forall q: Pattern | Candidate(reg.table, labels[i], segs, m, q) && q != [] && q[0] != g
      ensures Before(reg.walks, labels[i], g, q[0])
    {
      ParamBefore(nodes, labels, reg, i, segs, m, j, q);
    }
    BestThrough(reg, labels[i], segs, m, g, b);
  }

  lemma PreferWild(nodes: seq<Node>, labels: seq<Pattern>, reg: Registry, i: nat, segs: seq<string>, m: Method, b: Pattern)
    requires Represents(nodes, labels, reg.table, reg.walks)
    requires i < |nodes| && segs != []
    requires NoLiteral(reg.table, labels[i], segs, m)
    requires TriedBefore(reg.table, labels[i], segs, m, nodes[i].params, |nodes[i].params|)
    requires Best(reg, labels[i] + [Wild], [], m, b)
    ensures Best(reg, labels[i], segs, m, [Wild] + b)
  {
    assert |labels| == |nodes|;
    hide Represents, Candidate, NoLiteral, TriedBefore, Best, Before;
    forall q | Candidate(reg.table, labels[i], segs, m, q) ensures q != [] && q[0] == Wild {
      var t := Remaining(nodes, labels, reg, i, segs, m, |nodes[i].params|, q);
    }
    BestThrough(reg, labels[i], segs, m, Wild, b);
  }

  lemma Exhausted(nodes: seq<Node>, labels: seq<Pattern>, reg: Registry, i: nat, segs: seq<string>, m: Method)
    requires Represents(nodes, labels, reg.table, reg.walks)
    requires i < |nodes| && segs != []
    requires NoLiteral(reg.table, labels[i], segs, m)
    requires TriedBefore(reg.table, labels[i], segs, m, nodes[i].params, |nodes[i].params|)
    requires nodes[i].wild.Some? ==> RuledOut(reg.table, labels[i], segs, m, Wild)
    ensures NoCandidate(reg.table, labels[i], segs, m)
  {
    forall q ensures !Candidate(reg.table, labels[i], segs, m, q) {
      if Candidate(reg.table, labels[i], segs, m, q) {
        var t := Remaining(nodes, labels, reg, i, segs, m, |nodes[i].params|, q);
      }
    }
  }

  lemma EndOfPath(reg: Registry, prefix: Pattern, m: Method)
    ensures Serving(reg.table, prefix, m).None? ==> NoCandidate(reg.table, prefix, [], m)
    ensures Serving(reg.table, prefix, m).Some? ==> Best(reg, prefix, [], m, [])
  {
    assert prefix + [] == prefix;
  }

  lemma BranchBindings(g: Seg, b: Pattern, segs: seq<string>, before: seq<(string, string)>)
    requires segs != [] && Accepts(g, segs[0]) && Matches(b, Below(g, segs))
    ensures Matches([g] + b, segs)
    ensures before + Bindings([g] + b, segs) ==
      (match g case Lit(_) => before case Param(key) => before + [(key, segs[0])] case Wild => before + [("*", Join(segs))])
      + Bindings(b, Below(g, segs))
  {
    MatchCons(g, b, segs);
  }

  // ---- the 405 set, seen from a node -----------------------------------------------------------

  ghost predicate OfferedByLiteralOrParam(table: Table, prefix: Pattern, segs: seq<string>,
                                          params: seq<(string, nat)>, j: nat, m: Method)
    requires segs != [] && j <= |params|
  {
    || Offered(table, prefix + [Lit(segs[0])], segs[1..], m)
    || exists t :: 0 <= t < j && Offered(table, prefix + [Param(params[t].0)], segs[1..], m)
  }

  lemma NotOfferedWithoutChild(nodes: seq<Node>, labels: seq<Pattern>, reg: Registry, i: nat, g: Seg, rest: seq<string>)
    requires |labels| == |nodes| && Represents(nodes, labels, reg.table, reg.walks)
    requires i < |nodes| && Child(nodes[i], g).None?
    ensures forall m :: !Offered(reg.table, labels[i] + [g], rest, m)
  {
    forall m, b: Pattern ensures (m, labels[i] + [g] + b) !in reg.table {
      if (m, labels[i] + [g] + b) in reg.table {
        TableLabelled(nodes, labels, reg, m, labels[i] + [g] + b);
        PrefixLabelled(nodes, labels, labels[i] + [g] + b, |labels[i]| + 1);
        assert (labels[i] + [g] + b)[..|labels[i]| + 1] == labels[i] + [g];
        NewLabel(nodes, labels, i, g);
      }
    }
  }

  lemma ParamNode(nodes: seq<Node>, labels: seq<Pattern>, reg: Registry, i: nat, j: nat)
    requires |labels| == |nodes| && Represents(nodes, labels, reg.table, reg.walks)
    requires i < |nodes| && j < |nodes[i].params|
    ensures nodes[i].params[j].1 < |nodes| && labels[nodes[i].params[j].1] == labels[i] + [Param(nodes[i].params[j].0)]
  {
    assert DistinctParams(nodes[i]);
    ChildLabel(nodes, labels, reg, i, Param(nodes[i].params[j].0));
  }

  lemma OfferedSplit(nodes: seq<Node>, labels: seq<Pattern>, reg: Registry, i: nat, segs: seq<string>, m: Method)
    requires |labels| == |nodes| && Represents(nodes, labels, reg.table, reg.walks) && i < |nodes| && segs != []
    ensures Offered(reg.table, labels[i], segs, m) <==>
      || OfferedByLiteralOrParam(reg.table, labels[i], segs, nodes[i].params, |nodes[i].params|, m)
      || Offered(reg.table, labels[i] + [Wild], [], m)
  {
    hide Represents;
    if Offered(reg.table, labels[i], segs, m) {
      var q :| (m, labels[i] + q) in reg.table && Matches(q, segs);
      OfferedHead(nodes, labels, reg, i, segs, m, q);
      if q[0].Param? {
        var t := ParamIndex(nodes[i].params, q[0].key);
        assert q[0] == Param(nodes[i].params[t].0);
      }
    } else {
      if Offered(reg.table, labels[i] + [Lit(segs[0])], segs[1..], m) {
        OfferedCons(reg.table, labels[i], Lit(segs[0]), segs, m);
      }
      forall t | 0 <= t < |nodes[i].params|
        ensures !Offered(reg.table, labels[i] + [Param(nodes[i].params[t].0)], segs[1..], m)
      {
        if Offered(reg.table, labels[i] + [Param(nodes[i].params[t].0)], segs[1..], m) {
          OfferedCons(reg.table, labels[i], Param(nodes[i].params[t].0), segs, m);
        }
      }
      if Offered(reg.table, labels[i] + [Wild], [], m) { OfferedCons(reg.table, labels[i], Wild, segs, m); }
    }
  }

  lemma AllowedAtEnd(nodes: seq<Node>, labels: seq<Pattern>, reg: Registry, i: nat)
    requires |labels| == |nodes| && Represents(nodes, labels, reg.table, reg.walks) && i < |nodes|
    ensures forall m :: m in nodes[i].routes <==> Offered(reg.table, labels[i], [], m)
  {
    forall m ensures m in nodes[i].routes <==> Offered(reg.table, labels[i], [], m) {
      assert labels[i] + [] == labels[i];
      if m in nodes[i].routes { assert (m, labels[i] + []) in reg.table && Matches([], []); }
    }
  }

  lemma AnswerFound(reg: Registry, m: Method, path: string, out: map<string, string>, r: (Route, map<string, string>), p: Pattern)
    requires var segs := PathSegments(path);
      Best(reg, [], segs, m, p) && Serving(reg.table, [] + p, m) == Some(r.0) && r.1 == WriteParams(out, [] + Bindings(p, segs))
    ensures Answers(reg, m, path, out, Found(r.0, r.1))
  {
    assert [] + p == p;
    assert [] + Bindings(p, PathSegments(path)) == Bindings(p, PathSegments(path));
  }

  lemma AnswerNotFound(reg: Registry, m: Method, path: string, out: map<string, string>, methods: set<Method>)
    requires NoCandidate(reg.table, [], PathSegments(path), m)
    requires forall x :: x in methods <==> Offered(reg.table, [], PathSegments(path), x)
    ensures methods == {} ==> Answers(reg, m, path, out, NotFound)
    ensures methods != {} ==>
      Answers(reg, m, path, out, MethodNotAllowed(if GET in methods && HEAD !in methods then methods + {HEAD} else methods))
  {
    hide NoCandidate;
  }

  lemma RootLabel(nodes: seq<Node>, labels: seq<Pattern>, reg: Registry)
    requires |labels| == |nodes| && Represents(nodes, labels, reg.table, reg.walks)
    ensures |nodes| > 0 && labels[0] == []
  {}

  class Router {
    var nodes: seq<Node>
    var normalized: map<string, string>
    const strict: bool

    // the parameter accumulator shared by all lookups
    var keys: seq<string>
    var vals: seq<string>
    var len: nat

    ghost var labels: seq<Pattern>
    ghost var reg: Registry

    ghost predicate Valid()
      reads this
    {
      && |labels| == |nodes|
      && Represents(nodes, labels, reg.table, reg.walks)
      && normalized == reg.normalized
      && len <= |keys| && len <= |vals|
    }

    /** The bindings accumulated so far. */
    function Accum(): (a: seq<(string, string)>)
      requires len <= |keys| && len <= |vals|
      reads this
    {
      seq(len, i requires 0 <= i < len reads this requires len <= |keys| && len <= |vals| => (keys[i], vals[i]))
    }

    constructor (strict: bool)
      ensures Valid() && reg == RegisterAll(strict, []) && this.strict == strict
    {
      this.strict := strict;
      nodes, normalized := [EMPTY], map[];
      keys, vals, len := seq(16, _ => ""), seq(16, _ => ""), 0;
      labels, reg := [[]], Registry(map[], [], map[]);
      new;
      forall g ensures Child(EMPTY, g).None? {}
    }

    method RegisterRoute(route: Route) returns (outcome: Outcome)
      requires Valid()
      modifies this
      ensures Valid()
      ensures (reg, outcome) == Register(old(reg), strict, route)
    {
      hide Norm, Represents, WellFormed, Walked, ParsePattern, PathSegments;
      var norm := Norm(route.verb, route.path);
      if norm in normalized && normalized[norm] != "" && normalized[norm] != route.path {
        if strict { return Conflict; }
      } else {
        normalized := normalized[norm := route.path];
      }
      var node, ok := Walk(route.path);
      if !ok { return BadWildcard; }
      RouteStored(nodes, labels, reg, node, route.verb);
      if route.verb in nodes[node].routes { return Collision; }
      AddRoute(nodes, labels, reg.table, reg.walks, node, route);
      nodes := nodes[node := nodes[node].(routes := nodes[node].routes[route.verb := route])];
      reg := reg.(table := reg.table[(route.verb, labels[node]) := route]);
      return Registered;
    }

    /** Walks a route path segment by segment, growing the trie; stops at a misplaced wildcard. */
    method Walk(path: string) returns (node: nat, ok: bool)
      requires Represents(nodes, labels, reg.table, reg.walks)
      modifies `nodes, `labels, `reg
      ensures node < |nodes| && |labels| == |nodes|
      ensures reg == old(reg).(normalized := normalized, walks := old(reg).walks + [labels[node]])
      ensures Represents(nodes, labels, reg.table, reg.walks)
      ensures var p := ParsePattern(PathSegments(path));
        labels[node] == Walked(p) && ok == WellFormed(p) && (ok ==> labels[node] == p)
    {
      ghost var p := ParsePattern(PathSegments(path));
      node, ok := 0, true;
      var start := StartOf(path);
      BeginWalk(nodes, labels, reg.table, reg.walks);
      ghost var w := reg.walks;
      while start <= |path| && ok
        invariant node < |nodes| && |labels| == |nodes|
        invariant Represents(nodes, labels, reg.table, w + [labels[node]])
        invariant reg == old(reg) && w == reg.walks
        invariant if ok then Progress(p, labels[node], path, start) else Walked(p) == labels[node] && !WellFormed(p)
        decreases |path| + 1 - start, ok
      {
        node, start, ok := Advance(p, path, start, node, w);
      }
      if ok { ProgressDone(p, labels[node], path, start); }
      reg := reg.(normalized := normalized, walks := w + [labels[node]]);
    }

    /** One segment of a walk. */
    method Advance(ghost p: Pattern, path: string, start: nat, node: nat, ghost w: seq<Pattern>)
      returns (next: nat, start': nat, ok: bool)
      requires node < |nodes| && |labels| == |nodes| && start <= |path|
      requires Represents(nodes, labels, reg.table, w + [labels[node]])
      requires Progress(p, labels[node], path, start)
      modifies `nodes, `labels
      ensures next < |nodes| && |labels| == |nodes|
      ensures Represents(nodes, labels, reg.table, w + [labels[next]])
      ensures if ok then Progress(p, labels[next], path, start') && start < start'
              else Walked(p) == labels[next] && !WellFormed(p) && start == start'
    {
      hide Represents, Progress, Walked, WellFormed;
      var end := SegmentEnd(path, start);
      var seg := path[start..end];
      ProgressOn(p, labels[node], path, start);
      hide SegmentEnd, ParseSeg;
      if seg == "*" && end != |path| { return node, start, false; }
      next := Descend(node, ParseSeg(seg), w);
      return next, end + 1, true;
    }

    /** The child for a segment, created when the node has none. */
    method Descend(node: nat, g: Seg, ghost w: seq<Pattern>) returns (next: nat)
      requires node < |nodes| && |labels| == |nodes|
      requires Represents(nodes, labels, reg.table, w + [labels[node]])
      modifies `nodes, `labels
      ensures next < |nodes| && |labels| == |nodes| && labels[next] == old(labels[node]) + [g]
      ensures Represents(nodes, labels, reg.table, w + [labels[next]])
    {
      if Child(nodes[node], g).Some? {
        StepExisting(nodes, labels, reg.table, w, node, g);
        next := Child(nodes[node], g).value;
      } else {
        StepGrow(nodes, labels, reg.table, w, node, g);
        next := |nodes|;
        nodes, labels := Grown(nodes, node, g), labels + [labels[node] + [g]];
      }
    }

    // ---- lookup -----------------------------------------------------------------------------

    /** Pushes one binding onto the shared accumulator. */
    method Push(key: string, val: string)
      requires len <= |keys| && len <= |vals|
      modifies `keys, `vals, `len
      ensures len == old(len) + 1 && len <= |keys| && len <= |vals|
      ensures Accum() == old(Accum()) + [(key, val)]
    {
      keys := if len < |keys| then keys[len := key] else keys + [key];
      vals := if len < |vals| then vals[len := val] else vals + [val];
      len := len + 1;
    }

    /** Backtracking: forgets everything above `saved`. */
    method Rewind(saved: nat)
      requires saved <= len <= |keys| && len <= |vals|
      modifies `len
      ensures len == saved && Accum() == old(Accum())[..saved]
    {
      len := saved;
    }

    /** The end of the path: offer the node's route and write the bindings out. */
    method Emit(node: nat, m: Method, out: map<string, string>) returns (r: Option<(Route, map<string, string>)>)
      requires Valid() && node < |nodes|
      ensures r.None? <==> Serving(reg.table, labels[node], m).None?
      ensures r.Some? ==> Serving(reg.table, labels[node], m) == Some(r.value.0) && r.value.1 == WriteParams(out, Accum())
    {
      var routes := nodes[node].routes;
      var payload := if m in routes then Some(routes[m])
                     else if m == HEAD && GET in routes then Some(routes[GET]) else None;
      if payload.None? { return None; }
      var params := out;
      for i := 0 to len
        invariant params == WriteParams(out, Accum()[..i])
      {
        WriteParamsAppend(out, Accum()[..i], (keys[i], vals[i]));
        assert Accum()[..i] + [(keys[i], vals[i])] == Accum()[..i + 1];
        params := params[keys[i] := vals[i]];
      }
      assert Accum()[..len] == Accum();
      return Some((payload.value, params));
    }

    /** What one branch out of `node` yields: the best candidate through `g`, or none and no trace. */
    ghost predicate BranchAnswer(node: nat, g: Seg, segs: seq<string>, m: Method, out: map<string, string>,
                                 before: seq<(string, string)>, r: Option<(Route, map<string, string>)>, b: Pattern)
      requires node < |nodes| && |labels| == |nodes| && segs != [] && Accepts(g, segs[0])
      reads this
    {
      if r.None? then NoCandidate(reg.table, labels[node] + [g], Below(g, segs), m)
      else
        && Best(reg, labels[node] + [g], Below(g, segs), m, b)
        && Serving(reg.table, labels[node] + [g] + b, m) == Some(r.value.0)
        && Matches([g] + b, segs)
        && r.value.1 == WriteParams(out, before + Bindings([g] + b, segs))
    }

    method Branch(node: nat, g: Seg, path: string, pos: nat, m: Method, out: map<string, string>)
      returns (r: Option<(Route, map<string, string>)>, ghost b: Pattern)
      requires Valid() && node < |nodes| && pos <= |path|
      requires Child(nodes[node], g).Some? && Accepts(g, path[pos..SegmentEnd(path, pos)])
      modifies `keys, `vals, `len
      ensures Valid()
      ensures r.None? ==> len == old(len) && Accum() == old(Accum())
      ensures BranchAnswer(node, g, Segments(path, pos), m, out, old(Accum()), r, b)
      decreases |path| + 1 - pos, 0
    {
      hide Represents, NoCandidate, Best, Serving, WriteParams, Bindings, Matches, Join, Segments, SegmentEnd;
      var end := SegmentEnd(path, pos);
      var saved := len;
      ghost var before, segs := Accum(), Segments(path, pos);
      SegmentsHead(path, pos);
      ChildLabel(nodes, labels, reg, node, g);
      var child := Child(nodes[node], g).value;
      if g.Param? { Push(g.key, path[pos..end]); }
      if g.Wild? { JoinSegments(path, pos); Push("*", path[pos..]); }
      var next := if g.Wild? then |path| + 1 else end + 1;
      assert Segments(path, next) == Below(g, segs);
      r, b := LookupNode(child, path, next, m, out);
      if r.None? { Rewind(saved); } else { BestMatches(reg, labels[child], Below(g, segs), m, b); BranchBindings(g, b, segs, before); }
    }

    method LookupNode(node: nat, path: string, pos: nat, m: Method, out: map<string, string>)
      returns (r: Option<(Route, map<string, string>)>, ghost best: Pattern)
      requires Valid() && node < |nodes| && pos <= |path| + 1
      modifies `keys, `vals, `len
      ensures Valid()
      ensures r.None? ==>
        NoCandidate(reg.table, labels[node], Segments(path, pos), m) && len == old(len) && Accum() == old(Accum())
      ensures r.Some? ==>
        && Best(reg, labels[node], Segments(path, pos), m, best)
        && Serving(reg.table, labels[node] + best, m) == Some(r.value.0)
        && r.value.1 == WriteParams(out, old(Accum()) + Bindings(best, Segments(path, pos)))
      decreases |path| + 1 - pos, 2
    {
      hide Represents, Best, NoCandidate;
      if pos > |path| {
        r := Emit(node, m, out);
        best := [];
        EndOfPath(reg, labels[node], m);
        assert Accum() + [] == Accum() && labels[node] + [] == labels[node];
        return;
      }
      r, best := LookupLiteral(node, path, pos, m, out);
      if r.Some? { return; }
      r, best := LookupParams(node, path, pos, m, out);
      if r.Some? { return; }
      ghost var segs, b := Segments(path, pos), [];
      SegmentsHead(path, pos);
      if nodes[node].wild.Some? {
        r, b := Branch(node, Wild, path, pos, m, out);
        best := [Wild] + b;
        if r.Some? {
          PreferWild(nodes, labels, reg, node, segs, m, b);
          assert labels[node] + [Wild] + b == labels[node] + best;
          return;
        }
        NoneBelow(reg.table, labels[node], segs, m, Wild);
      }
      Exhausted(nodes, labels, reg, node, segs, m);
    }

    method LookupLiteral(node: nat, path: string, pos: nat, m: Method, out: map<string, string>)
      returns (r: Option<(Route, map<string, string>)>, ghost best: Pattern)
      requires Valid() && node < |nodes| && pos <= |path|
      modifies `keys, `vals, `len
      ensures Valid()
      ensures r.None? ==>
        NoLiteral(reg.table, labels[node], Segments(path, pos), m) && len == old(len) && Accum() == old(Accum())
      ensures r.Some? ==>
        && Best(reg, labels[node], Segments(path, pos), m, best)
        && Serving(reg.table, labels[node] + best, m) == Some(r.value.0)
        && r.value.1 == WriteParams(out, old(Accum()) + Bindings(best, Segments(path, pos)))
      decreases |path| + 1 - pos, 1
    {
      hide Represents, Best, NoCandidate;
      var seg := path[pos..SegmentEnd(path, pos)];
      ghost var segs, b := Segments(path, pos), [];
      SegmentsHead(path, pos);
      r, best := None, [];
      if seg in nodes[node].children {
        r, b := Branch(node, Lit(seg), path, pos, m, out);
        best := [Lit(seg)] + b;
        if r.Some? {
          PreferLiteral(reg, labels[node], segs, m, b);
          assert labels[node] + [Lit(seg)] + b == labels[node] + best;
          return;
        }
        NoneBelow(reg.table, labels[node], segs, m, Lit(seg));
      }
      forall text ensures RuledOut(reg.table, labels[node], segs, m, Lit(text)) {
        if text != seg || seg !in nodes[node].children { NoChild(nodes, labels, reg, node, segs, m, Lit(text)); }
      }
    }

    method LookupParams(node: nat, path: string, pos: nat, m: Method, out: map<string, string>)
      returns (r: Option<(Route, map<string, string>)>, ghost best: Pattern)
      requires Valid() && node < |nodes| && pos <= |path|
      requires NoLiteral(reg.table, labels[node], Segments(path, pos), m)
      modifies `keys, `vals, `len
      ensures Valid()
      ensures r.None? ==>
        && TriedBefore(reg.table, labels[node], Segments(path, pos), m, nodes[node].params, |nodes[node].params|)
        && len == old(len) && Accum() == old(Accum())
      ensures r.Some? ==>
        && Best(reg, labels[node], Segments(path, pos), m, best)
        && Serving(reg.table, labels[node] + best, m) == Some(r.value.0)
        && r.value.1 == WriteParams(out, old(Accum()) + Bindings(best, Segments(path, pos)))
      decreases |path| + 1 - pos, 1
    {
      hide Represents, Best, NoCandidate, Serving, WriteParams, Bindings, Matches, Segments, SegmentEnd, Child;
      ghost var segs, b := Segments(path, pos), [];
      SegmentsHead(path, pos);
      for j := 0 to |nodes[node].params|
        invariant Valid() && len == old(len) && Accum() == old(Accum())
        invariant TriedBefore(reg.table, labels[node], segs, m, nodes[node].params, j)
      {
        var key := nodes[node].params[j].0;
        ParamChild(nodes, labels, reg, node, j);
        r, b := Branch(node, Param(key), path, pos, m, out);
        best := [Param(key)] + b;
        if r.Some? {
          PreferParam(nodes, labels, reg, node, segs, m, j, b);
          assert labels[node] + [Param(key)] + b == labels[node] + best;
          return;
        }
        NoneBelow(reg.table, labels[node], segs, m, Param(key));
      }
      r, best := None, [];
    }

    // ---- the methods of a path, for a 405 answer ----------------------------------------------

    method CollectAllowed(node: nat, path: string, pos: nat) returns (methods: set<Method>)
      requires Valid() && node < |nodes| && pos <= |path| + 1
      ensures forall x :: x in methods <==> Offered(reg.table, labels[node], Segments(path, pos), x)
      decreases |path| + 1 - pos
    {
      hide Represents, Offered;
      if pos > |path| {
        methods := nodes[node].routes.Keys;
        AllowedAtEnd(nodes, labels, reg, node);
        return;
      }
      var end := SegmentEnd(path, pos);
      var seg := path[pos..end];
      ghost var table, prefix, segs := reg.table, labels[node], Segments(path, pos);
      SegmentsHead(path, pos);
      methods := {};
      if seg in nodes[node].children {
        ChildLabel(nodes, labels, reg, node, Lit(seg));
        methods := CollectAllowed(nodes[node].children[seg], path, end + 1);
      } else {
        NotOfferedWithoutChild(nodes, labels, reg, node, Lit(seg), segs[1..]);
      }
      var params := nodes[node].params;
      for j := 0 to |params|
        invariant forall x :: x in methods <==> OfferedByLiteralOrParam(table, prefix, segs, params, j, x)
      {
        ParamChild(nodes, labels, reg, node, j);
        ParamNode(nodes, labels, reg, node, j);
        var more := CollectAllowed(params[j].1, path, end + 1);
        forall x ensures x in methods + more <==> OfferedByLiteralOrParam(table, prefix, segs, params, j + 1, x) {}
        methods := methods + more;
      }
      if nodes[node].wild.Some? {
        ChildLabel(nodes, labels, reg, node, Wild);
        var more := CollectAllowed(nodes[node].wild.value, path, |path| + 1);
        methods := methods + more;
      } else {
        NotOfferedWithoutChild(nodes, labels, reg, node, Wild, []);
      }
      forall x ensures x in methods <==> Offered(table, prefix, segs, x) {
        OfferedSplit(nodes, labels, reg, node, segs, x);
      }
    }

    // ---- the public lookup --------------------------------------------------------------------

    method Lookup(m: Method, path: string, out: map<string, string>) returns (a: Answer)
      requires Valid()
      modifies `keys, `vals, `len
      ensures Valid() && Answers(reg, m, path, out, a)
    {
      hide Represents, Answers, NoCandidate;
      RootLabel(nodes, labels, reg);
      len := 0;
      assert Accum() == [];
      var r, best := LookupNode(0, path, StartOf(path), m, out);
      if r.Some? {
        AnswerFound(reg, m, path, out, r.value, best);
        return Found(r.value.0, r.value.1);
      }
      var methods := CollectAllowed(0, path, StartOf(path));
      AnswerNotFound(reg, m, path, out, methods);
      if methods == {} { return NotFound; }
      var allowed := if GET in methods && HEAD !in methods then methods + {HEAD} else methods;
      return MethodNotAllowed(allowed);
    }
  }
}
