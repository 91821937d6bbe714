/** Query strings: the canonical text of a query, and the parser that reads it back. */
module Query {
  import opened StableSort
  import U = UriComponent
  import opened Text

  // ---- the order Array.prototype.sort uses on strings: by UTF-16 code units ------------------------------

  /** A character's place in that order: supplementary characters start with a surrogate, below U+E000. */
  function Rank(c: char): int {
    var n := c as int;
    if n < 0xD800 then n else if n >= 0x10000 then n - 0x10000 + 0xD800 else n + 0x100000
  }

  predicate Le(a: string, b: string) {
    a == [] || (b != [] && (Rank(a[0]) < Rank(b[0]) || (a[0] == b[0] && Le(a[1..], b[1..]))))
  }

  lemma RankInjective(c: char, d: char)
    requires Rank(c) == Rank(d)
    ensures c == d
  {}

  lemma {:induction false} LeTotal(a: string, b: string)
    ensures Le(a, b) || Le(b, a)
  {
    if a != [] && b != [] {
      if Rank(a[0]) == Rank(b[0]) { RankInjective(a[0], b[0]); }
      LeTotal(a[1..], b[1..]);
    }
  }

  lemma {:induction false} LeTransitive(a: string, b: string, c: string)
    requires Le(a, b) && Le(b, c)
    ensures Le(a, c)
  {
    if a != [] && a[0] == b[0] == c[0] { LeTransitive(a[1..], b[1..], c[1..]); }
  }

  lemma {:induction false} LeAntisymmetric(a: string, b: string)
    requires Le(a, b) && Le(b, a)
    ensures a == b
  {
    if a != [] {
      LeAntisymmetric(a[1..], b[1..]);
      assert a == [a[0]] + a[1..] && b == [b[0]] + b[1..];
    }
  }

  lemma LeIsAnOrder()
    ensures TotalPreorder(Le) && Antisymmetric(Le)
  {
    forall a, b ensures Le(a, b) || Le(b, a) { LeTotal(a, b); }
    forall a, b, c | Le(a, b) && Le(b, c) ensures Le(a, c) { LeTransitive(a, b, c); }
    forall a, b | Le(a, b) && Le(b, a) ensures a == b { LeAntisymmetric(a, b); }
  }

  type Pair = (string, string)

  predicate PairLe(p: Pair, q: Pair) {
    if p.0 == q.0 then Le(p.1, q.1) else Le(p.0, q.0)
  }

  lemma PairLeIsAnOrder()
    ensures TotalPreorder(PairLe) && Antisymmetric(PairLe)
  {
    LeIsAnOrder();
    hide Le;
    forall p, q ensures PairLe(p, q) || PairLe(q, p) {}
    forall p, q, r | PairLe(p, q) && PairLe(q, r) ensures PairLe(p, r) {}
    forall p, q | PairLe(p, q) && PairLe(q, p) ensures p == q {}
  }

  // ---- queries ----------------------------------------------------------------------------------------------

  datatype Value = One(text: string) | Many(items: seq<string>)

  /** A parsed query: its keys in the object's own order, and a string or an array of strings for each. */
  datatype Query = Query(keys: seq<string>, values: map<string, Value>)

  ghost predicate Valid(q: Query) {
    Distinct(q.keys) && forall k :: k in q.keys <==> k in q.values
  }

  function Items(v: Value): seq<string> {
    match v
    case One(text) => [text]
    case Many(items) => items
  }

  function SortedItems(v: Value): seq<string> {
    match v
    case One(text) => [text]
    case Many(items) => Sort(Le, items)
  }

  function PairsOf(key: string, items: seq<string>): seq<Pair> {
    if items == [] then [] else [(key, items[0])] + PairsOf(key, items[1..])
  }

  /** The (key, value) pairs in the order of `keys`, with a key's values as they are or sorted. */
  function Flatten(keys: seq<string>, values: map<string, Value>, sorted: bool): seq<Pair>
    requires forall k :: k in keys ==> k in values
  {
    if keys == [] then []
    else
      PairsOf(keys[0], if sorted then SortedItems(values[keys[0]]) else Items(values[keys[0]]))
        + Flatten(keys[1..], values, sorted)
  }

  /** What a query says: how often each key has each value. */
  ghost function Pairs(q: Query): multiset<Pair>
    requires Valid(q)
  {
    multiset(Flatten(q.keys, q.values, false))
  }

  lemma SortedKeysAre(q: Query)
    requires Valid(q)
    ensures var keys := Sort(Le, q.keys);
      && Distinct(keys) && Ordered(Le, keys) && (forall k :: k in keys <==> k in q.values)
  {
    LeIsAnOrder();
    SortOrdered(Le, q.keys);
    var keys := Sort(Le, q.keys);
    SameMembers(keys, q.keys);
    DistinctByCount(q.keys, keys);
  }

  lemma SameMembers(a: seq<string>, b: seq<string>)
    requires multiset(a) == multiset(b)
    ensures forall k :: k in a <==> k in b
  {
    assert forall k :: k in a <==> k in multiset(a);
    assert forall k :: k in b <==> k in multiset(b);
  }

  lemma DistinctByCount(a: seq<string>, b: seq<string>)
    requires Distinct(a) && multiset(a) == multiset(b)
    ensures Distinct(b)
  {
    forall i, j | 0 <= i < j < |b| ensures b[i] != b[j] {
      if b[i] == b[j] {
        TwiceCounts(b, i, j);
        OnceCounts(a, b[i]);
      }
    }
  }

  lemma TwiceCounts(b: seq<string>, i: nat, j: nat)
    requires i < j < |b| && b[i] == b[j]
    ensures multiset(b)[b[i]] >= 2
  {
    assert b == b[..j] + [b[j]] + b[j + 1..];
    assert b[i] in b[..j];
  }

  lemma {:induction false} OnceCounts(a: seq<string>, k: string)
    requires Distinct(a)
    ensures multiset(a)[k] <= 1
  {
    if a != [] {
      assert a == [a[0]] + a[1..];
      OnceCounts(a[1..], k);
      if a[0] == k { assert k !in a[1..]; }
    }
  }

  function Canonical(q: Query): seq<Pair>
    requires Valid(q)
  {
    SortedKeysAre(q);
    Flatten(Sort(Le, q.keys), q.values, true)
  }

  function Field(p: Pair): string { U.Encode(p.0) + "=" + U.Encode(p.1) }

  function Fields(ps: seq<Pair>): seq<string> {
    if ps == [] then [] else [Field(ps[0])] + Fields(ps[1..])
  }

  /** Array.prototype.join('&') */
  function Join(fields: seq<string>): string {
    if fields == [] then []
    else if |fields| == 1 then fields[0]
    else fields[0] + "&" + Join(fields[1..])
  }

  /** The canonical text of a query. */
  function Normalize(q: Query): string
    requires Valid(q)
  {
    Join(Fields(Canonical(q)))
  }

  // ---- the canonical pairs are sorted, and are the query's pairs --------------------------------------------------

  lemma {:induction false} PairsOfCount(key: string, items: seq<string>, p: Pair)
    ensures multiset(PairsOf(key, items))[p] == if p.0 == key then multiset(items)[p.1] else 0
  {
    if items != [] {
      assert items == [items[0]] + items[1..];
      PairsOfCount(key, items[1..], p);
    }
  }

  lemma {:induction false} FlattenCount(keys: seq<string>, values: map<string, Value>, sorted: bool, p: Pair)
    requires Distinct(keys) && forall k :: k in keys ==> k in values
    ensures multiset(Flatten(keys, values, sorted))[p] == if p.0 in keys then multiset(Items(values[p.0]))[p.1] else 0
  {
    if keys != [] {
      assert keys == [keys[0]] + keys[1..];
      FlattenCount(keys[1..], values, sorted, p);
      PairsOfCount(keys[0], if sorted then SortedItems(values[keys[0]]) else Items(values[keys[0]]), p);
    }
  }

  lemma CanonicalHoldsThePairs(q: Query)
    requires Valid(q)
    ensures multiset(Canonical(q)) == Pairs(q)
  {
    SortedKeysAre(q);
    forall p ensures multiset(Canonical(q))[p] == Pairs(q)[p] {
      FlattenCount(Sort(Le, q.keys), q.values, true, p);
      FlattenCount(q.keys, q.values, false, p);
    }
  }

  lemma {:induction false} PairsOfOrdered(key: string, items: seq<string>)
    requires Ordered(Le, items)
    ensures Ordered(PairLe, PairsOf(key, items))
    ensures |PairsOf(key, items)| == |items| && forall i :: 0 <= i < |items| ==> PairsOf(key, items)[i] == (key, items[i])
  {
    if items != [] { PairsOfOrdered(key, items[1..]); }
  }

  lemma {:induction false} FlattenKeys(keys: seq<string>, values: map<string, Value>, sorted: bool)
    requires forall k :: k in keys ==> k in values
    ensures forall p :: p in Flatten(keys, values, sorted) ==> p.0 in keys
  {
    if keys != [] {
      FlattenKeys(keys[1..], values, sorted);
      var items := if sorted then SortedItems(values[keys[0]]) else Items(values[keys[0]]);
      forall p | p in PairsOf(keys[0], items) ensures p.0 == keys[0] {
        PairsOfCount(keys[0], items, p);
        assert p in multiset(PairsOf(keys[0], items));
      }
    }
  }

  lemma {:induction false} FlattenOrdered(keys: seq<string>, values: map<string, Value>)
    requires Ordered(Le, keys) && Distinct(keys) && forall k :: k in keys ==> k in values
    ensures Ordered(PairLe, Flatten(keys, values, true))
  {
    if keys != [] {
      var items, rest := SortedItems(values[keys[0]]), Flatten(keys[1..], values, true);
      FlattenOrdered(keys[1..], values);
      LeIsAnOrder();
      if values[keys[0]].Many? { SortOrdered(Le, values[keys[0]].items); }
      PairsOfOrdered(keys[0], items);
      FlattenKeys(keys[1..], values, true);
      hide Le, Sort, Flatten;
      AppendOrdered(keys[0], PairsOf(keys[0], items), rest, keys[1..]);
      assert Flatten(keys, values, true) == PairsOf(keys[0], items) + rest by { UnfoldFlatten(keys, values, true); }
    }
  }

  lemma UnfoldFlatten(keys: seq<string>, values: map<string, Value>, sorted: bool)
    requires keys != [] && forall k :: k in keys ==> k in values
    ensures Flatten(keys, values, sorted) ==
      PairsOf(keys[0], if sorted then SortedItems(values[keys[0]]) else Items(values[keys[0]])) + Flatten(keys[1..], values, sorted)
  {}

  lemma AppendOrdered(key: string, first: seq<Pair>, rest: seq<Pair>, keys: seq<string>)
    requires Ordered(PairLe, first) && Ordered(PairLe, rest)
    requires forall i :: 0 <= i < |first| ==> first[i].0 == key
    requires forall p :: p in rest ==> p.0 in keys
    requires forall k :: k in keys ==> k != key && Le(key, k)
    ensures Ordered(PairLe, first + rest)
  {
    hide Le;
    var all := first + rest;
    forall i, j | 0 <= i < j < |all| ensures PairLe(all[i], all[j]) {
      if i < |first| <= j { assert all[j] in rest; }
    }
  }

  lemma CanonicalIsOrdered(q: Query)
    requires Valid(q)
    ensures Ordered(PairLe, Canonical(q))
  {
    SortedKeysAre(q);
    FlattenOrdered(Sort(Le, q.keys), q.values);
  }
}
