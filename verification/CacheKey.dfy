/** Cache keys: method, path, canonical query and varying headers, joined by NUL. */
module CacheKey {
  import opened StableSort
  import opened Query
  import U = UriComponent
  import QP = QueryParser
  import S = CacheStore

  const KEY_SEPARATOR: char := '\0'

  // ---- the source's loops -------------------------------------------------------------------------------

  /** The parts, key by key in sorted order, then joined. */
  method NormalizeQuery(q: Query) returns (text: string)
    requires Valid(q)
    ensures text == Normalize(q)
  {
    SortedKeysAre(q);
    var keys := Sort(Le, q.keys);
    var parts := KeysFields(keys, q.values);
    return Join(parts);
  }

  method KeysFields(keys: seq<string>, values: map<string, Value>) returns (parts: seq<string>)
    requires forall k :: k in keys ==> k in values
    ensures parts == Fields(Flatten(keys, values, true))
  {
    parts := [];
    var left := keys;
    hide SortedItems, Fields, Flatten;
    assert parts + Fields(Flatten(left, values, true)) == Fields(Flatten(keys, values, true));
    while left != []
      invariant forall k :: k in left ==> k in values
      invariant parts + Fields(Flatten(left, values, true)) == Fields(Flatten(keys, values, true))
      decreases |left|
    {
      var key := left[0];
      var more := KeyFields(key, SortedItems(values[key]));
      UnfoldFlatten(left, values, true);
      FieldsConcat(PairsOf(key, SortedItems(values[key])), Flatten(left[1..], values, true));
      Regroup(parts, more, Fields(Flatten(left[1..], values, true)));
      parts := parts + more;
      left := left[1..];
    }
    NoFields(values);
    assert parts + [] == parts;
  }

  lemma Regroup<T>(a: seq<T>, b: seq<T>, c: seq<T>)
    ensures a + (b + c) == (a + b) + c
  {}

  lemma NoFields(values: map<string, Value>)
    ensures Fields(Flatten([], values, true)) == []
  {}

  /** One field for each value of a key. */
  method KeyFields(key: string, items: seq<string>) returns (parts: seq<string>)
    ensures parts == Fields(PairsOf(key, items))
  {
    parts := [];
    var j := 0;
    assert items[0..] == items;
    while j < |items|
      invariant 0 <= j <= |items|
      invariant Fields(PairsOf(key, items)) == parts + Fields(PairsOf(key, items[j..]))
    {
      var part := U.Encode(key) + "=" + U.Encode(items[j]);
      assert items[j..][1..] == items[j + 1..];
      PairsOfUnfold(key, items[j..]);
      FieldsConcat([(key, items[j])], PairsOf(key, items[j + 1..]));
      assert part == Field((key, items[j]));
      assert Fields([(key, items[j])]) == [part];
      assert parts + ([part] + Fields(PairsOf(key, items[j + 1..]))) == (parts + [part]) + Fields(PairsOf(key, items[j + 1..]));
      parts := parts + [part];
      j := j + 1;
    }
    assert items[j..] == [] && parts + [] == parts;
  }

  lemma PairsOfUnfold(key: string, items: seq<string>)
    requires items != []
    ensures PairsOf(key, items) == [(key, items[0])] + PairsOf(key, items[1..])
  {}

  lemma {:induction false} FieldsConcat(a: seq<Pair>, b: seq<Pair>)
    ensures Fields(a + b) == Fields(a) + Fields(b)
  {
    if a == [] {
      assert a + b == b;
    } else {
      assert (a + b)[1..] == a[1..] + b;
      FieldsConcat(a[1..], b);
    }
  }

  function PathKeyPrefix(verb: string, path: string): string {
    verb + [KEY_SEPARATOR] + path + [KEY_SEPARATOR]
  }

  /** Each varying header as its own segment. */
  function VarySegments(vary: seq<Pair>): string {
    if vary == [] then [] else [KEY_SEPARATOR] + vary[0].0 + ":" + vary[0].1 + VarySegments(vary[1..])
  }

  function CacheKeyOf(verb: string, path: string, q: Query, vary: seq<Pair>): string
    requires Valid(q)
  {
    PathKeyPrefix(verb, path) + Normalize(q) + VarySegments(vary)
  }

  method BuildCacheKey(verb: string, path: string, q: Query, vary: seq<Pair>) returns (key: string)
    requires Valid(q)
    ensures key == CacheKeyOf(verb, path, q, vary)
  {
    var text := NormalizeQuery(q);
    key := verb + [KEY_SEPARATOR] + path + [KEY_SEPARATOR] + text;
    var i := 0;
    assert vary[0..] == vary;
    hide Normalize;
    assert key == PathKeyPrefix(verb, path) + text;
    hide PathKeyPrefix;
    while i < |vary|
      invariant 0 <= i <= |vary|
      invariant key + VarySegments(vary[i..]) == CacheKeyOf(verb, path, q, vary)
    {
      var segment := [KEY_SEPARATOR] + vary[i].0 + ":" + vary[i].1;
      VaryUnfold(vary, i);
      Regroup(key, segment, VarySegments(vary[i + 1..]));
      key := key + segment;
      i := i + 1;
    }
    assert vary[i..] == [] && key + [] == key;
  }

  lemma VaryUnfold(vary: seq<Pair>, i: nat)
    requires i < |vary|
    ensures VarySegments(vary[i..]) == ([KEY_SEPARATOR] + vary[i].0 + ":" + vary[i].1) + VarySegments(vary[i + 1..])
  {
    assert vary[i..][1..] == vary[i + 1..];
  }

  // ---- what a key determines ------------------------------------------------------------------------------

  predicate NulFree(s: string) { forall i :: 0 <= i < |s| ==> s[i] != KEY_SEPARATOR }

  lemma SegmentsAlign(a: string, x: string, b: string, y: string)
    requires NulFree(b) && a + [KEY_SEPARATOR] + x == b + [KEY_SEPARATOR] + y
    ensures |b| <= |a|
  {
    assert (a + [KEY_SEPARATOR] + x)[|a|] == KEY_SEPARATOR;
  }

  /** The first segment of a NUL-joined text is determined by the text. */
  lemma FirstSegment(a: string, x: string, b: string, y: string)
    requires NulFree(a) && NulFree(b)
    ensures (a + [KEY_SEPARATOR] + x == b + [KEY_SEPARATOR] + y) <==> a == b && x == y
  {
    var s, t := a + [KEY_SEPARATOR] + x, b + [KEY_SEPARATOR] + y;
    if s == t {
      SegmentsAlign(a, x, b, y);
      SegmentsAlign(b, y, a, x);
      assert a == s[..|a|] && b == t[..|b|];
      assert x == s[|a| + 1..] && y == t[|b| + 1..];
    }
  }

  /** A path's prefix is a prefix of exactly the keys of that method and path. */
  lemma PrefixMatchesExactlyThePath(verb: string, path: string, verb': string, path': string, rest: string)
    requires NulFree(verb) && NulFree(path) && NulFree(verb') && NulFree(path')
    ensures PathKeyPrefix(verb, path) <= PathKeyPrefix(verb', path') + rest <==> verb == verb' && path == path'
  {
    var p, k := PathKeyPrefix(verb, path), PathKeyPrefix(verb', path') + rest;
    if p <= k {
      var more := k[|p|..];
      assert k == p + more;
      assert p + more == verb + [KEY_SEPARATOR] + (path + [KEY_SEPARATOR] + more);
      assert k == verb' + [KEY_SEPARATOR] + (path' + [KEY_SEPARATOR] + rest);
      FirstSegment(verb, path + [KEY_SEPARATOR] + more, verb', path' + [KEY_SEPARATOR] + rest);
      FirstSegment(path, more, path', rest);
    }
  }

  /** The parts a stored key was built from. */
  datatype Parts = Parts(verb: string, path: string, query: Query, vary: seq<Pair>)

  ghost predicate BuiltFrom(key: string, p: Parts) {
    Valid(p.query) && NulFree(p.verb) && NulFree(p.path) && key == CacheKeyOf(p.verb, p.path, p.query, p.vary)
  }

  /**
    invalidatePath: deleting by a method and path's prefix removes exactly the records of that
    method and path, whatever their queries and varying headers.
   */
  lemma InvalidatePathIsExact(records: seq<S.Rec>, r: S.Rec, p: Parts, verb: string, path: string)
    requires r in records && BuiltFrom(r.key, p) && NulFree(verb) && NulFree(path)
    ensures r in S.Keep(records, S.KeyLacksPrefix(PathKeyPrefix(verb, path)))
      <==> !(p.verb == verb && p.path == path)
  {
    S.KeepMembers(records, S.KeyLacksPrefix(PathKeyPrefix(verb, path)));
    PrefixOfBuilt(r.key, p, verb, path);
  }

  lemma PrefixOfBuilt(key: string, p: Parts, verb: string, path: string)
    requires BuiltFrom(key, p) && NulFree(verb) && NulFree(path)
    ensures PathKeyPrefix(verb, path) <= key <==> verb == p.verb && path == p.path
  {
    KeyOf(key, p);
    hide BuiltFrom;
    PrefixMatchesExactlyThePath(verb, path, p.verb, p.path, Normalize(p.query) + VarySegments(p.vary));
  }

  lemma KeyOf(key: string, p: Parts)
    requires BuiltFrom(key, p)
    ensures key == PathKeyPrefix(p.verb, p.path) + (Normalize(p.query) + VarySegments(p.vary))
  {
    hide Normalize, PathKeyPrefix, VarySegments;
  }

  lemma NormalizedIsNulFree(q: Query)
    requires Valid(q)
    ensures NulFree(Normalize(q))
  {
    JoinNulFree(Canonical(q));
  }

  lemma {:induction false} JoinNulFree(ps: seq<Pair>)
    ensures NulFree(Join(Fields(ps)))
  {
    if ps != [] {
      JoinNulFree(ps[1..]);
      FieldNulFree(ps[0]);
      assert Fields(ps)[1..] == Fields(ps[1..]);
      hide Field;
    }
  }

  lemma FieldNulFree(p: Pair)
    ensures NulFree(Field(p))
  {
    U.EncodePlain(p.0);
    U.EncodePlain(p.1);
    hide U.Encode;
  }

  ghost predicate VaryNulFree(vary: seq<Pair>) {
    forall i :: 0 <= i < |vary| ==> NulFree(vary[i].0) && NulFree(vary[i].1)
  }

  lemma {:induction false} VarySegmentsDetermine(v: seq<Pair>, w: seq<Pair>)
    requires |v| == |w| && VaryNulFree(v) && VaryNulFree(w) && forall i :: 0 <= i < |v| ==> v[i].0 == w[i].0
    requires VarySegments(v) == VarySegments(w)
    ensures v == w
  {
    if v != [] {
      var a, b := v[0].0 + ":" + v[0].1, w[0].0 + ":" + w[0].1;
      var x, y := VarySegments(v[1..]), VarySegments(w[1..]);
      assert VarySegments(v) == [KEY_SEPARATOR] + (a + x) && VarySegments(w) == [KEY_SEPARATOR] + (b + y);
      assert a + x == VarySegments(v)[1..] == b + y;
      if |v| == 1 {
        assert a + x == a && b + y == b;
      } else {
        assert x == [KEY_SEPARATOR] + x[1..] && y == [KEY_SEPARATOR] + y[1..];
        assert a + x == a + [KEY_SEPARATOR] + x[1..] && b + y == b + [KEY_SEPARATOR] + y[1..];
        FirstSegment(a, x[1..], b, y[1..]);
      }
      var n := |v[0].0| + 1;
      assert v[0].1 == a[n..] && w[0].1 == b[n..];
      VarySegmentsDetermine(v[1..], w[1..]);
      assert v == [v[0]] + v[1..] && w == [w[0]] + w[1..];
    }
  }

  /**
    Two requests share a primary key exactly when they agree on method, path, the multiset of query
    pairs, and the values of the configured varying headers.
   */
  lemma SameKeyIffSameRequest(a: Parts, b: Parts)
    requires Valid(a.query) && Valid(b.query) && NulFree(a.verb) && NulFree(a.path) && NulFree(b.verb) && NulFree(b.path)
    requires |a.vary| == |b.vary| && VaryNulFree(a.vary) && VaryNulFree(b.vary)
    requires forall i :: 0 <= i < |a.vary| ==> a.vary[i].0 == b.vary[i].0
    ensures CacheKeyOf(a.verb, a.path, a.query, a.vary) == CacheKeyOf(b.verb, b.path, b.query, b.vary)
      <==> a.verb == b.verb && a.path == b.path && Pairs(a.query) == Pairs(b.query) && a.vary == b.vary
  {
    NormalizedIsNulFree(a.query);
    NormalizedIsNulFree(b.query);
    QP.SameTextIffSamePairs(a.query, b.query);
    var t, u := Normalize(a.query), Normalize(b.query);
    KeyParts(a.verb, a.path, t, a.vary, b.verb, b.path, u, b.vary);
  }

  lemma KeyParts(verb: string, path: string, t: string, v: seq<Pair>, verb': string, path': string, u: string, w: seq<Pair>)
    requires NulFree(verb) && NulFree(path) && NulFree(t) && NulFree(verb') && NulFree(path') && NulFree(u)
    requires |v| == |w| && VaryNulFree(v) && VaryNulFree(w) && forall i :: 0 <= i < |v| ==> v[i].0 == w[i].0
    ensures PathKeyPrefix(verb, path) + t + VarySegments(v) == PathKeyPrefix(verb', path') + u + VarySegments(w)
      <==> verb == verb' && path == path' && t == u && v == w
  {
    QueryAndVary(t, v, u, w);
    var x, y := t + VarySegments(v), u + VarySegments(w);
    PrefixRegroup(verb, path, t, VarySegments(v));
    PrefixRegroup(verb', path', u, VarySegments(w));
    hide *;
    FirstSegment(verb, path + [KEY_SEPARATOR] + x, verb', path' + [KEY_SEPARATOR] + y);
    FirstSegment(path, x, path', y);
  }

  lemma PrefixRegroup(verb: string, path: string, t: string, v: string)
    ensures PathKeyPrefix(verb, path) + t + v == verb + [KEY_SEPARATOR] + (path + [KEY_SEPARATOR] + (t + v))
  {}

  lemma QueryAndVary(t: string, v: seq<Pair>, u: string, w: seq<Pair>)
    requires NulFree(t) && NulFree(u) && |v| == |w| && VaryNulFree(v) && VaryNulFree(w)
    requires forall i :: 0 <= i < |v| ==> v[i].0 == w[i].0
    ensures t + VarySegments(v) == u + VarySegments(w) <==> t == u && v == w
  {
    hide NulFree, VaryNulFree;
    if v == [] {
      assert VarySegments(v) == [] && VarySegments(w) == [];
      assert t + [] == t && u + [] == u;
    } else {
      VaryHead(v);
      VaryHead(w);
      hide VarySegments;
      HeadApart(t, VarySegments(v), u, VarySegments(w));
      if t + VarySegments(v) == u + VarySegments(w) { VarySegmentsDetermine(v, w); }
    }
  }

  /** Texts without NUL in front of rests that begin with it. */
  lemma HeadApart(t: string, x: string, u: string, y: string)
    requires NulFree(t) && NulFree(u) && x != [] && y != [] && x[0] == KEY_SEPARATOR && y[0] == KEY_SEPARATOR
    ensures t + x == u + y <==> t == u && x == y
  {
    assert x == [KEY_SEPARATOR] + x[1..] && y == [KEY_SEPARATOR] + y[1..];
    assert t + x == t + [KEY_SEPARATOR] + x[1..] && u + y == u + [KEY_SEPARATOR] + y[1..];
    FirstSegment(t, x[1..], u, y[1..]);
  }

  lemma VaryHead(v: seq<Pair>)
    requires v != []
    ensures VarySegments(v) != [] && VarySegments(v)[0] == KEY_SEPARATOR
  {}
}
