/** What the three counts are: of the fields of the inlined operation, listed one by one. */
module GraphQLCounts {
  import opened OptionType
  import opened GraphQLCost

  /** One field of an operation: whether it has an alias, and how many fields it stands in, itself counted. */
  datatype Entry = Entry(alias: bool, level: nat)

  /** Every field, in order, of selections that stand at a level; inline fragments do not add one. */
  function Listing(sels: seq<Selection>, level: nat): seq<Entry> {
    if sels == [] then []
    else
      (match sels[0]
       case Field(alias, sub) => [Entry(alias, level)] + Listing(sub, level + 1)
       case Spread(_) => []
       case Inline(sub) => Listing(sub, level))
      + Listing(sels[1..], level)
  }

  function Flags(es: seq<Entry>): (flags: seq<bool>)
    ensures |flags| == |es| && forall i :: 0 <= i < |es| ==> flags[i] == es[i].alias
  {
    seq(|es|, i requires 0 <= i < |es| => es[i].alias)
  }

  /** How many of the fields have an alias. */
  function Aliased(es: seq<Entry>): nat {
    multiset(Flags(es))[true]
  }

  /** `n` is the largest level, 0 if there is none. */
  predicate Deepest(es: seq<Entry>, n: nat) {
    (forall i :: 0 <= i < |es| ==> es[i].level <= n) && if es == [] then n == 0 else exists i :: 0 <= i < |es| && es[i].level == n
  }

  lemma AliasedConcat(a: seq<Entry>, b: seq<Entry>)
    ensures Aliased(a + b) == Aliased(a) + Aliased(b)
  {
    assert Flags(a + b) == Flags(a) + Flags(b);
  }

  lemma DeepestConcat(a: seq<Entry>, b: seq<Entry>, m: nat, n: nat)
    requires Deepest(a, m) && Deepest(b, n)
    ensures Deepest(a + b, Max(m, n))
  {
    var k := Max(m, n);
    assert forall i :: 0 <= i < |a| ==> (a + b)[i] == a[i];
    assert forall i :: 0 <= i < |b| ==> (a + b)[|a| + i] == b[i];
    if a + b != [] {
      if a != [] && k == m {
        var i :| 0 <= i < |a| && a[i].level == m;
        assert (a + b)[i].level == k;
      } else if b != [] && k == n {
        var i :| 0 <= i < |b| && b[i].level == n;
        assert (a + b)[|a| + i].level == k;
      }
    }
  }

  // ---- the counts are those of the listing --------------------------------------------------------------

  /** The listing has this many fields and aliases, and its fields stand this far below `above`. */
  ghost predicate CountedBy(m: Metrics, es: seq<Entry>, above: nat) {
    m.fields == |es| && m.aliases == Aliased(es) && Deepest(es, if es == [] then 0 else above + m.depth) && (es == [] ==> m.depth == 0)
  }

  lemma BesideCounts(a: Metrics, b: Metrics, x: seq<Entry>, y: seq<Entry>, above: nat)
    requires CountedBy(a, x, above) && CountedBy(b, y, above)
    ensures CountedBy(Beside(a, b), x + y, above)
  {
    AliasedConcat(x, y);
    DeepestConcat(x, y, if x == [] then 0 else above + a.depth, if y == [] then 0 else above + b.depth);
  }

  lemma AroundCounts(alias: bool, m: Metrics, es: seq<Entry>, above: nat)
    requires CountedBy(m, es, above + 1)
    ensures CountedBy(Around(alias, m), [Entry(alias, above + 1)] + es, above)
  {
    var one := [Entry(alias, above + 1)];
    assert Flags(one) == [alias];
    AliasedConcat(one, es);
    assert Deepest(one, above + 1) by { assert one[0].level == above + 1; }
    DeepestConcat(one, es, above + 1, if es == [] then 0 else above + 1 + m.depth);
  }

  lemma NothingCounts(above: nat)
    ensures CountedBy(ZERO, [], above)
  {
    assert Flags([]) == [];
  }

  lemma {:induction false} CostCounts(sels: seq<Selection>, above: nat)
    ensures CountedBy(Cost(sels), Listing(sels, above + 1), above)
  {
    hide CountedBy, Beside, Around;
    NothingCounts(above);
    if sels != [] {
      CostCounts(sels[1..], above);
      match sels[0] {
        case Field(alias, sub) =>
          CostCounts(sub, above + 1);
          AroundCounts(alias, Cost(sub), Listing(sub, above + 2), above);
          BesideCounts(Around(alias, Cost(sub)), Cost(sels[1..]), [Entry(alias, above + 1)] + Listing(sub, above + 2), Listing(sels[1..], above + 1), above);
        case Spread(_) =>
          BesideCounts(ZERO, Cost(sels[1..]), [], Listing(sels[1..], above + 1), above);
        case Inline(sub) =>
          CostCounts(sub, above);
          BesideCounts(Cost(sub), Cost(sels[1..]), Listing(sub, above + 1), Listing(sels[1..], above + 1), above);
      }
    }
  }

  /** The same listing read off the document itself: a spread lists the fields of its fragment, at its own level. */
  ghost function Fields(frags: Fragments, rank: map<string, nat>, sels: seq<Selection>, level: nat, bound: nat): seq<Entry>
    requires AcyclicBy(frags, rank) && Descends(frags, rank, sels, bound)
    decreases bound, sels
  {
    if sels == [] then []
    else FieldsOne(frags, rank, sels[0], level, bound) + Fields(frags, rank, sels[1..], level, bound)
  }

  ghost function FieldsOne(frags: Fragments, rank: map<string, nat>, s: Selection, level: nat, bound: nat): seq<Entry>
    requires AcyclicBy(frags, rank) && DescendsOne(frags, rank, s, bound)
    decreases bound, s
  {
    match s
    case Field(alias, sub) => [Entry(alias, level)] + Fields(frags, rank, sub, level + 1, bound)
    case Spread(name) => if name in frags then Fields(frags, rank, frags[name], level, rank[name]) else []
    case Inline(sub) => Fields(frags, rank, sub, level, bound)
  }

  lemma ListingFirst(s: Selection, rest: seq<Selection>, level: nat)
    ensures Listing([s] + rest, level) == Listing([s], level) + Listing(rest, level)
  {
    assert ([s] + rest)[1..] == rest && [s][1..] == [];
  }

  lemma {:induction false} ListingOfInlined(frags: Fragments, rank: map<string, nat>, sels: seq<Selection>, level: nat, bound: nat)
    requires AcyclicBy(frags, rank) && Descends(frags, rank, sels, bound)
    ensures Listing(Inlined(frags, rank, sels, bound), level) == Fields(frags, rank, sels, level, bound)
    decreases bound, sels
  {
    hide AcyclicBy, Listing;
    if sels == [] {
      assert Listing([], level) == [] by { ListingEmpty(level); }
    } else {
      ListingOfOne(frags, rank, sels[0], level, bound);
      ListingOfInlined(frags, rank, sels[1..], level, bound);
      ListingFirst(InlinedOne(frags, rank, sels[0], bound), Inlined(frags, rank, sels[1..], bound), level);
    }
  }

  lemma ListingEmpty(level: nat)
    ensures Listing([], level) == []
  {}

  lemma {:induction false} ListingOfOne(frags: Fragments, rank: map<string, nat>, s: Selection, level: nat, bound: nat)
    requires AcyclicBy(frags, rank) && DescendsOne(frags, rank, s, bound)
    ensures Listing([InlinedOne(frags, rank, s, bound)], level) == FieldsOne(frags, rank, s, level, bound)
    decreases bound, s
  {
    assert [InlinedOne(frags, rank, s, bound)][1..] == [];
    match s {
      case Field(_, sub) => ListingOfInlined(frags, rank, sub, level + 1, bound);
      case Spread(name) => if name in frags { RankOf(frags, rank, name); ListingOfInlined(frags, rank, frags[name], level, rank[name]); }
      case Inline(sub) => ListingOfInlined(frags, rank, sub, level, bound);
    }
  }

  /**
    For a document without cycles, whatever was analysed before: of the fields of the operation, those
    of its fragments listed wherever they are spread, `fields` is how many there are, `aliases` how many
    of them have an alias, and `depth` the deepest level at which one stands.
   */
  lemma MetricsCountTheFields(frags: Fragments, rank: map<string, nat>, before: seq<seq<Selection>>, op: seq<Selection>, bound: nat)
    requires AcyclicBy(frags, rank) && Descends(frags, rank, op, bound)
    requires forall i :: 0 <= i < |before| ==> Descends(frags, rank, before[i], bound)
    ensures var m, es := Analyze(frags, AfterOperations(frags, before), op, ZERO).0, Fields(frags, rank, op, 1, bound);
      m.fields == |es| && m.aliases == Aliased(es) && Deepest(es, m.depth)
  {
    MemoAgreesWithInlining(frags, rank, before, op, bound);
    CostCounts(Inlined(frags, rank, op, bound), 0);
    ListingOfInlined(frags, rank, op, 1, bound);
  }

  /** The rule complains of exactly these: a field standing too deep, too many aliases, too many fields. */
  lemma ComplaintsMean(limits: Limits, m: Metrics, es: seq<Entry>)
    requires m.fields == |es| && m.aliases == Aliased(es) && Deepest(es, m.depth)
    ensures TooDeep in Complaints(limits, m) <==>
      limits.maxDepth.Some? && exists i :: 0 <= i < |es| && es[i].level > limits.maxDepth.value
    ensures TooManyAliases in Complaints(limits, m) <==> limits.maxAliases.Some? && Aliased(es) > limits.maxAliases.value
    ensures TooManyFields in Complaints(limits, m) <==> limits.maxFields.Some? && |es| > limits.maxFields.value
  {
    hide Aliased;
  }
}
