/**
  The trie as it sits in memory. Nodes live in one growing array and refer to each other by
  index; a ghost label per node is the pattern that leads to it.
 */
module RouterTrie {
  import opened OptionType
  import opened RouterSpec
  import opened RouterTheorems

  datatype Node = Node(
    children: map<string, nat>,
    params: seq<(string, nat)>,
    wild: Option<nat>,
    routes: map<Method, Route>)

  const EMPTY := Node(map[], [], None, map[])

  function FindParam(params: seq<(string, nat)>, key: string): (r: Option<nat>)
    ensures r.Some? ==> (key, r.value) in params
    ensures r.None? ==> forall i :: 0 <= i < |params| ==> params[i].0 != key
  {
    if params == [] then None
    else if params[0].0 == key then Some(params[0].1)
    else FindParam(params[1..], key)
  }

  function Child(node: Node, g: Seg): Option<nat> {
    match g
    case Lit(text) => if text in node.children then Some(node.children[text]) else None
    case Param(key) => FindParam(node.params, key)
    case Wild => node.wild
  }

  /** One label per node, no label twice, and every label's parent is a label. */
  ghost predicate Labelled(nodes: seq<Node>, labels: seq<Pattern>) {
    && |labels| == |nodes| && |nodes| > 0 && labels[0] == []
    && (forall i, j :: 0 <= i < j < |labels| ==> labels[i] != labels[j])
    && (forall c :: 0 < c < |nodes| ==> HasParent(labels, c))
  }

  ghost predicate HasParent(labels: seq<Pattern>, c: nat)
    requires c < |labels|
  {
    labels[c] != [] && labels[c][..|labels[c]| - 1] in labels
  }

  /** Links lead to nodes labelled accordingly, and every labelled child is linked. */
  ghost predicate Linked(nodes: seq<Node>, labels: seq<Pattern>)
    requires |labels| == |nodes|
  {
    && (forall i, g :: 0 <= i < |nodes| && Child(nodes[i], g).Some? ==>
          Child(nodes[i], g).value < |nodes| && labels[Child(nodes[i], g).value] == labels[i] + [g])
    && (forall i, c, g :: 0 <= i < |nodes| && 0 <= c < |nodes| && labels[c] == labels[i] + [g] ==>
          Child(nodes[i], g) == Some(c))
  }

  /** The scan for a parameter finds each entry of the list: no name is listed twice. */
  ghost predicate DistinctParams(node: Node) {
    forall j :: 0 <= j < |node.params| ==> FindParam(node.params, node.params[j].0) == Some(node.params[j].1)
  }

  ghost predicate Shaped(nodes: seq<Node>, labels: seq<Pattern>) {
    Labelled(nodes, labels) && Linked(nodes, labels) && forall i :: 0 <= i < |nodes| ==> DistinctParams(nodes[i])
  }

  /** Routes hang exactly where the registry says. */
  ghost predicate Holds(nodes: seq<Node>, labels: seq<Pattern>, table: Table)
    requires |labels| == |nodes|
  {
    && (forall i, m :: 0 <= i < |nodes| ==> (m in nodes[i].routes <==> (m, labels[i]) in table))
    && (forall i, m :: 0 <= i < |nodes| && m in nodes[i].routes ==> nodes[i].routes[m] == table[(m, labels[i])])
    && (forall k :: k in table ==> k.1 in labels)
  }

  /** Parameter children stand in the order in which registrations first walked them. */
  ghost predicate Aged(nodes: seq<Node>, labels: seq<Pattern>, walks: seq<Pattern>)
    requires |labels| == |nodes|
  {
    && (forall c :: 0 <= c < |labels| && labels[c] != [] ==> FirstWalk(walks, labels[c]) < |walks|)
    && (forall w :: w in walks ==> w in labels)
    && (forall i, j, k :: 0 <= i < |nodes| && 0 <= j < k < |nodes[i].params| ==>
          FirstWalk(walks, labels[i] + [Param(nodes[i].params[j].0)]) <
          FirstWalk(walks, labels[i] + [Param(nodes[i].params[k].0)]))
  }

  ghost predicate Represents(nodes: seq<Node>, labels: seq<Pattern>, table: Table, walks: seq<Pattern>) {
    Shaped(nodes, labels) && Holds(nodes, labels, table) && Aged(nodes, labels, walks)
  }

  // ---- growing the trie ---------------------------------------------------------------------

  function AddChild(node: Node, g: Seg, c: nat): Node {
    match g
    case Lit(text) => node.(children := node.children[text := c])
    case Param(key) => node.(params := node.params + [(key, c)])
    case Wild => node.(wild := Some(c))
  }

  lemma FindParamAppend(params: seq<(string, nat)>, key: string, c: nat, k: string)
    ensures FindParam(params + [(key, c)], k) ==
      if FindParam(params, k).Some? then FindParam(params, k) else if k == key then Some(c) else None
  {
    if params != [] { assert (params + [(key, c)])[1..] == params[1..] + [(key, c)]; }
  }

  lemma AddChildChild(node: Node, g: Seg, c: nat, h: Seg)
    requires Child(node, g).None?
    ensures Child(AddChild(node, g, c), h) == if h == g then Some(c) else Child(node, h)
  {
    if g.Param? && h.Param? { FindParamAppend(node.params, g.key, c, h.key); }
  }

  function Grown(nodes: seq<Node>, i: nat, g: Seg): seq<Node>
    requires i < |nodes|
  {
    nodes[i := AddChild(nodes[i], g, |nodes|)] + [EMPTY]
  }

  lemma GrownChild(nodes: seq<Node>, i: nat, g: Seg, a: nat, h: Seg)
    requires i < |nodes| && a <= |nodes| && Child(nodes[i], g).None?
    ensures Child(Grown(nodes, i, g)[a], h) ==
      if a == |nodes| then None else if a == i && h == g then Some(|nodes|) else Child(nodes[a], h)
  {
    AddChildChild(nodes[i], g, |nodes|, h);
  }

  lemma NewLabel(nodes: seq<Node>, labels: seq<Pattern>, i: nat, g: Seg)
    requires |labels| == |nodes| && Linked(nodes, labels) && i < |nodes| && Child(nodes[i], g).None?
    ensures labels[i] + [g] !in labels
  {
    forall c | 0 <= c < |labels| ensures labels[c] != labels[i] + [g] {}
  }

  lemma GrowLabelled(nodes: seq<Node>, labels: seq<Pattern>, i: nat, g: Seg)
    requires Shaped(nodes, labels) && i < |nodes| && Child(nodes[i], g).None?
    ensures Labelled(Grown(nodes, i, g), labels + [labels[i] + [g]])
  {
    NewLabel(nodes, labels, i, g);
    var labels' := labels + [labels[i] + [g]];
    forall c | 0 < c < |labels'| ensures HasParent(labels', c) {
      if c < |labels| { assert HasParent(labels, c); }
      else { assert (labels[i] + [g])[..|labels[i]|] == labels[i]; assert labels[i] in labels; }
    }
  }

  lemma GrowLinked(nodes: seq<Node>, labels: seq<Pattern>, i: nat, g: Seg)
    requires Shaped(nodes, labels) && i < |nodes| && Child(nodes[i], g).None?
    ensures Linked(Grown(nodes, i, g), labels + [labels[i] + [g]])
  {
    var nodes' := Grown(nodes, i, g);
    var labels' := labels + [labels[i] + [g]];
    forall a, h | 0 <= a < |nodes'| && Child(nodes'[a], h).Some?
      ensures Child(nodes'[a], h).value < |nodes'| && labels'[Child(nodes'[a], h).value] == labels'[a] + [h]
    {
      GrownChild(nodes, i, g, a, h);
    }
    forall a, c, h | 0 <= a < |nodes'| && 0 <= c < |nodes'| && labels'[c] == labels'[a] + [h]
      ensures Child(nodes'[a], h) == Some(c)
    {
      GrownChild(nodes, i, g, a, h);
      GrownParent(nodes, labels, i, g, a, c, h);
    }
  }

  lemma GrownParent(nodes: seq<Node>, labels: seq<Pattern>, i: nat, g: Seg, a: nat, c: nat, h: Seg)
    requires Shaped(nodes, labels) && i < |nodes| && Child(nodes[i], g).None?
    requires a <= |nodes| && c <= |nodes|
    requires var labels' := labels + [labels[i] + [g]]; labels'[c] == labels'[a] + [h]
    ensures a < |nodes| && if c == |nodes| then a == i && h == g else Child(nodes[a], h) == Some(c)
  {
    var labels' := labels + [labels[i] + [g]];
    assert labels'[c][..|labels'[c]| - 1] == labels'[a] && labels'[c][|labels'[c]| - 1] == h;
    if c == |nodes| {
      assert labels'[c][..|labels'[c]| - 1] == labels[i] && labels'[c][|labels'[c]| - 1] == g;
    } else {
      NewLabel(nodes, labels, i, g);
      assert c != 0 && HasParent(labels, c);
    }
  }

  lemma GrowShaped(nodes: seq<Node>, labels: seq<Pattern>, i: nat, g: Seg)
    requires Shaped(nodes, labels) && i < |nodes| && Child(nodes[i], g).None?
    ensures Shaped(Grown(nodes, i, g), labels + [labels[i] + [g]])
  {
    GrowLabelled(nodes, labels, i, g);
    GrowLinked(nodes, labels, i, g);
    var node := AddChild(nodes[i], g, |nodes|);
    forall j | 0 <= j < |node.params| ensures FindParam(node.params, node.params[j].0) == Some(node.params[j].1) {
      if g.Param? { FindParamAppend(nodes[i].params, g.key, |nodes|, node.params[j].0); }
    }
  }

  // ---- the age of a parameter ---------------------------------------------------------------

  /** Lengthening the walk in progress changes the age of no prefix that was already walked. */
  lemma AgeStable(walks: seq<Pattern>, d: Pattern, g: Seg, x: Pattern)
    requires FirstWalk(walks + [d], x) <= |walks|
    ensures FirstWalk(walks + [d + [g]], x) == FirstWalk(walks + [d], x)
  {
    FirstWalkExtend(walks, d, x);
    FirstWalkExtend(walks, d + [g], x);
  }

  lemma StepExisting(nodes: seq<Node>, labels: seq<Pattern>, table: Table, walks: seq<Pattern>, i: nat, g: Seg)
    requires i < |nodes| && |labels| == |nodes| && Represents(nodes, labels, table, walks + [labels[i]])
    requires Child(nodes[i], g).Some?
    ensures Represents(nodes, labels, table, walks + [labels[i] + [g]])
  {
    var old_, new_ := walks + [labels[i]], walks + [labels[i] + [g]];
    forall c | 0 <= c < |labels| && labels[c] != [] ensures FirstWalk(new_, labels[c]) == FirstWalk(old_, labels[c]) {
      AgeStable(walks, labels[i], g, labels[c]);
    }
    var c := Child(nodes[i], g).value;
    forall w | w in new_ ensures w in labels { assert w in old_ || w == labels[c]; }
    AgedSame(nodes, labels, old_, new_);
  }

  lemma AgedSame(nodes: seq<Node>, labels: seq<Pattern>, old_: seq<Pattern>, new_: seq<Pattern>)
    requires Shaped(nodes, labels) && Aged(nodes, labels, old_) && |old_| <= |new_|
    requires forall c :: 0 <= c < |labels| && labels[c] != [] ==> FirstWalk(new_, labels[c]) == FirstWalk(old_, labels[c])
    requires forall w :: w in new_ ==> w in labels
    ensures Aged(nodes, labels, new_)
  {
    ShapedLengths(nodes, labels);
    forall i, j, k | 0 <= i < |nodes| && 0 <= j < k < |nodes[i].params|
      ensures FirstWalk(new_, labels[i] + [Param(nodes[i].params[j].0)]) < FirstWalk(new_, labels[i] + [Param(nodes[i].params[k].0)])
    {
      ParamAge(nodes, labels, old_, new_, i, j);
      ParamAge(nodes, labels, old_, new_, i, k);
    }
  }

  lemma ParamAge(nodes: seq<Node>, labels: seq<Pattern>, old_: seq<Pattern>, new_: seq<Pattern>, i: nat, j: nat)
    requires Shaped(nodes, labels) && i < |nodes| && j < |nodes[i].params| && |labels| == |nodes|
    requires forall c :: 0 <= c < |labels| && labels[c] != [] ==> FirstWalk(new_, labels[c]) == FirstWalk(old_, labels[c])
    ensures var x := labels[i] + [Param(nodes[i].params[j].0)]; FirstWalk(new_, x) == FirstWalk(old_, x)
  {
    assert DistinctParams(nodes[i]);
    assert Child(nodes[i], Param(nodes[i].params[j].0)) == Some(nodes[i].params[j].1);
  }

  lemma GrowHolds(nodes: seq<Node>, labels: seq<Pattern>, table: Table, i: nat, g: Seg)
    requires |labels| == |nodes| && Holds(nodes, labels, table) && i < |nodes| && labels[i] + [g] !in labels
    ensures Holds(Grown(nodes, i, g), labels + [labels[i] + [g]], table)
  {
    var nodes', labels' := Grown(nodes, i, g), labels + [labels[i] + [g]];
    forall a | 0 <= a < |nodes| ensures nodes'[a].routes == nodes[a].routes && labels'[a] == labels[a] {}
    forall k | k in table ensures k.1 in labels' && k.1 != labels[i] + [g] { assert k.1 in labels; }
  }

  lemma {:induction false} PrefixLabelled(nodes: seq<Node>, labels: seq<Pattern>, p: Pattern, n: nat)
    requires Labelled(nodes, labels) && p in labels && n <= |p|
    ensures p[..n] in labels
    decreases |p|
  {
    if n == |p| {
      assert p[..n] == p;
    } else {
      var c :| 0 <= c < |labels| && labels[c] == p;
      assert HasParent(labels, c);
      PrefixLabelled(nodes, labels, p[..|p| - 1], n);
      assert p[..|p| - 1][..n] == p[..n];
    }
  }

  /** A child that does not exist was never walked. */
  lemma NeverWalked(nodes: seq<Node>, labels: seq<Pattern>, walks: seq<Pattern>, x: Pattern)
    requires Labelled(nodes, labels) && x !in labels
    requires forall w :: w in walks ==> w in labels
    ensures FirstWalk(walks, x) == |walks|
  {
    var n := FirstWalk(walks, x);
    if n < |walks| {
      var w := walks[n];
      assert w in walks && x == w[..|x|];
      PrefixLabelled(nodes, labels, w, |x|);
    }
  }

  /** An older parameter of the same node was walked by an earlier registration. */
  lemma OlderParam(nodes: seq<Node>, labels: seq<Pattern>, walks: seq<Pattern>, i: nat, g: Seg, j: nat)
    requires Shaped(nodes, labels) && i < |nodes| && Aged(nodes, labels, walks + [labels[i]])
    requires Child(nodes[i], g).None? && g.Param? && j < |nodes[i].params|
    ensures var new_ := walks + [labels[i] + [g]];
      FirstWalk(new_, labels[i] + [Param(nodes[i].params[j].0)]) < FirstWalk(new_, labels[i] + [g])
  {
    var d, h := labels[i], Param(nodes[i].params[j].0);
    assert DistinctParams(nodes[i]);
    assert Child(nodes[i], h) == Some(nodes[i].params[j].1);
    NewLabel(nodes, labels, i, g);
    NeverWalked(nodes, labels, walks + [d], d + [g]);
    FirstWalkExtend(walks, d, d + [g]);
    FirstWalkExtend(walks, d + [g], d + [g]);
    assert !(d + [h] <= d);
    FirstWalkExtend(walks, d, d + [h]);
    FirstWalkExtend(walks, d + [g], d + [h]);
  }

  lemma GrowAged(nodes: seq<Node>, labels: seq<Pattern>, walks: seq<Pattern>, i: nat, g: Seg)
    requires Shaped(nodes, labels) && i < |nodes| && Aged(nodes, labels, walks + [labels[i]])
    requires Child(nodes[i], g).None?
    ensures Aged(Grown(nodes, i, g), labels + [labels[i] + [g]], walks + [labels[i] + [g]])
  {
    var nodes', labels' := Grown(nodes, i, g), labels + [labels[i] + [g]];
    var d, new_ := labels[i], walks + [labels[i] + [g]];
    GrowAgedLabels(nodes, labels, walks, i, g);
    forall a, j, k | 0 <= a < |nodes'| && 0 <= j < k < |nodes'[a].params|
      ensures FirstWalk(new_, labels'[a] + [Param(nodes'[a].params[j].0)]) < FirstWalk(new_, labels'[a] + [Param(nodes'[a].params[k].0)])
    {
      hide FirstWalk, Child, Shaped, Linked, Labelled;
      GrowAgedParams(nodes, labels, walks, i, g, a, j, k);
    }
    hide FirstWalk, Child, Shaped, Grown;
  }

  lemma GrowAgedLabels(nodes: seq<Node>, labels: seq<Pattern>, walks: seq<Pattern>, i: nat, g: Seg)
    requires Shaped(nodes, labels) && i < |nodes| && Aged(nodes, labels, walks + [labels[i]])
    ensures var labels', new_ := labels + [labels[i] + [g]], walks + [labels[i] + [g]];
      && (forall c :: 0 <= c < |labels'| && labels'[c] != [] ==> FirstWalk(new_, labels'[c]) < |new_|)
      && (forall w :: w in new_ ==> w in labels')
  {
    var d, old_, new_ := labels[i], walks + [labels[i]], walks + [labels[i] + [g]];
    hide FirstWalk, Shaped;
    assert |labels| == |nodes| by { ShapedLengths(nodes, labels); }
    forall c | 0 <= c < |labels| && labels[c] != [] ensures FirstWalk(new_, labels[c]) == FirstWalk(old_, labels[c]) {
      AgeStable(walks, d, g, labels[c]);
    }
    FirstWalkExtend(walks, d + [g], d + [g]);
    forall w | w in new_ ensures w in labels + [d + [g]] { assert w in old_ || w == d + [g]; }
  }

  lemma ShapedLengths(nodes: seq<Node>, labels: seq<Pattern>)
    requires Shaped(nodes, labels)
    ensures |labels| == |nodes|
  {}

  lemma GrowAgedParams(nodes: seq<Node>, labels: seq<Pattern>, walks: seq<Pattern>, i: nat, g: Seg, a: nat, j: nat, k: nat)
    requires Shaped(nodes, labels) && i < |nodes| && Aged(nodes, labels, walks + [labels[i]])
    requires Child(nodes[i], g).None?
    requires var nodes' := Grown(nodes, i, g); a < |nodes'| && j < k < |nodes'[a].params|
    ensures var nodes', labels', new_ := Grown(nodes, i, g), labels + [labels[i] + [g]], walks + [labels[i] + [g]];
      FirstWalk(new_, labels'[a] + [Param(nodes'[a].params[j].0)]) < FirstWalk(new_, labels'[a] + [Param(nodes'[a].params[k].0)])
  {
    assert a < |nodes|;
    if k == |nodes[a].params| { OlderParam(nodes, labels, walks, i, g, j); }
    else { SameAge(nodes, labels, walks, i, g, a, j); SameAge(nodes, labels, walks, i, g, a, k); }
    hide FirstWalk, Child, Shaped;
  }

  lemma SameAge(nodes: seq<Node>, labels: seq<Pattern>, walks: seq<Pattern>, i: nat, g: Seg, a: nat, j: nat)
    requires Shaped(nodes, labels) && i < |nodes| && Aged(nodes, labels, walks + [labels[i]])
    requires a < |nodes| && j < |nodes[a].params|
    ensures var x := labels[a] + [Param(nodes[a].params[j].0)];
      FirstWalk(walks + [labels[i] + [g]], x) == FirstWalk(walks + [labels[i]], x)
  {
    assert DistinctParams(nodes[a]);
    assert Child(nodes[a], Param(nodes[a].params[j].0)) == Some(nodes[a].params[j].1);
    AgeStable(walks, labels[i], g, labels[a] + [Param(nodes[a].params[j].0)]);
  }

  lemma StepGrow(nodes: seq<Node>, labels: seq<Pattern>, table: Table, walks: seq<Pattern>, i: nat, g: Seg)
    requires i < |nodes| && |labels| == |nodes| && Represents(nodes, labels, table, walks + [labels[i]])
    requires Child(nodes[i], g).None?
    ensures Represents(Grown(nodes, i, g), labels + [labels[i] + [g]], table, walks + [labels[i] + [g]])
  {
    GrowShaped(nodes, labels, i, g);
    NewLabel(nodes, labels, i, g);
    GrowHolds(nodes, labels, table, i, g);
    GrowAged(nodes, labels, walks, i, g);
  }
}
