/** The index-driven query parser, and what it makes of a canonical text. */
module QueryParser {
  import opened OptionType
  import opened StableSort
  import opened Query
  import opened Text
  import U = UriComponent

  // ---- one field -------------------------------------------------------------------------------------------

  function PlusToSpace(s: string): (r: string)
    ensures |r| == |s| && forall i :: 0 <= i < |s| ==> r[i] == if s[i] == '+' then ' ' else s[i]
  {
    seq(|s|, i requires 0 <= i < |s| => if s[i] == '+' then ' ' else s[i])
  }

  /** A malformed escape leaves the text as it is. */
  function SafeDecode(s: string): string {
    var d := U.Decode(s);
    if d.None? then s else d.value
  }

  function RawKey(f: string): string { f[..IndexOf(f, '=')] }

  function RawValue(f: string): string {
    var e := IndexOf(f, '=');
    if e == |f| then [] else f[e + 1..]
  }

  function FieldPair(f: string): Pair {
    (SafeDecode(PlusToSpace(RawKey(f))), SafeDecode(PlusToSpace(RawValue(f))))
  }

  /** The non-empty stretches between ampersands. */
  function Split(s: string): seq<string>
    decreases |s|
  {
    if s == [] then []
    else
      var n := IndexOf(s, '&');
      (if n == 0 then [] else [s[..n]]) + (if n == |s| then [] else Split(s[n + 1..]))
  }

  function FieldPairs(fields: seq<string>): seq<Pair> {
    if fields == [] then [] else [FieldPair(fields[0])] + FieldPairs(fields[1..])
  }

  // ---- collecting pairs -------------------------------------------------------------------------------------

  function Append(v: Value, item: string): Value {
    match v
    case One(text) => Many([text, item])
    case Many(items) => Many(items + [item])
  }

  /** Adds pair after pair, and stops right after adding the key that reaches the limit. */
  function Collect(ps: seq<Pair>, result: map<string, Value>, maxKeys: int): map<string, Value> {
    if ps == [] then result
    else
      var (key, val) := ps[0];
      if key in result then Collect(ps[1..], result[key := Append(result[key], val)], maxKeys)
      else
        var more := result[key := One(val)];
        if |more| >= maxKeys then more else Collect(ps[1..], more, maxKeys)
  }

  function Parse(s: string, maxKeys: int): map<string, Value> {
    Collect(FieldPairs(Split(s)), map[], maxKeys)
  }

  // ---- the source's loops --------------------------------------------------------------------------------------

  method ReplacePlus(s: string) returns (out: string)
    ensures out == PlusToSpace(s)
  {
    if '+' !in s {
      assert PlusToSpace(s) == s;
      return s;
    }
    out := "";
    var i := 0;
    while i < |s|
      invariant 0 <= i <= |s| && out == PlusToSpace(s)[..i]
    {
      out := out + (if s[i] == '+' then " " else [s[i]]);
      i := i + 1;
    }
  }

  lemma SplitStep(s: string, start: nat, i: nat)
    requires start <= i <= |s| && (i < |s| ==> s[i] == '&') && forall k :: start <= k < i ==> s[k] != '&'
    ensures Split(s[start..]) == (if start == i then [] else [s[start..i]]) + (if i == |s| then [] else Split(s[i + 1..]))
  {
    var t := s[start..];
    IndexOfIs(t, '&', i - start);
    if i < |s| { assert t[i - start + 1..] == s[i + 1..]; }
    assert t[..i - start] == s[start..i];
  }

  lemma CollectFirst(f: string, fields: seq<string>, result: map<string, Value>, maxKeys: int)
    ensures var (key, val) := FieldPair(f);
      var more := result[key := if key in result then Append(result[key], val) else One(val)];
      Collect(FieldPairs([f] + fields), result, maxKeys) ==
        if key !in result && |more| >= maxKeys then more else Collect(FieldPairs(fields), more, maxKeys)
  {
    assert ([f] + fields)[1..] == fields;
    var ps := FieldPairs([f] + fields);
    assert ps == [FieldPair(f)] + FieldPairs(fields);
    assert ps[1..] == FieldPairs(fields);
    hide FieldPair;
  }

  /** What is still to be done from `start` on, with this much collected, makes up the parse. */
  ghost predicate OnTrack(str: string, start: nat, result: map<string, Value>, maxKeys: int)
    requires start <= |str| + 1
  {
    if start == |str| + 1 then result == Parse(str, maxKeys)
    else Collect(FieldPairs(Split(str[start..])), result, maxKeys) == Parse(str, maxKeys)
  }

  lemma SkipEmptyField(str: string, start: nat, result: map<string, Value>, maxKeys: int)
    requires start <= |str| && (start < |str| ==> str[start] == '&') && OnTrack(str, start, result, maxKeys)
    ensures OnTrack(str, start + 1, result, maxKeys)
  {
    SplitStep(str, start, start);
    NothingLeft(result, maxKeys);
    hide Split, Parse, Collect, FieldPairs;
    if start < |str| { assert Split(str[start..]) == Split(str[start + 1..]); } else { assert Split(str[start..]) == []; }
  }

  /** The field from `start` to `i`, added to what has been collected. */
  method AddField(str: string, start: nat, i: nat, eqIdx: int, before: map<string, Value>, keyCount: int, maxKeys: int)
    returns (result: map<string, Value>, count: int, full: bool)
    requires start < i <= |str| && EqualsAt(str, start, i, eqIdx) && (i < |str| ==> str[i] == '&')
    requires forall k :: start <= k < i ==> str[k] != '&'
    requires keyCount == |before| && OnTrack(str, start, before, maxKeys)
    ensures full ==> result == Parse(str, maxKeys)
    ensures !full ==> count == |result| && OnTrack(str, i + 1, result, maxKeys)
  {
    var keyEnd := if eqIdx == -1 then i else eqIdx;
    var keyStr := ReplacePlus(str[start..keyEnd]);
    var valStr := ReplacePlus(if eqIdx == -1 then [] else str[eqIdx + 1..i]);
    var key, val := SafeDecode(keyStr), SafeDecode(valStr);
    FieldParts(str, start, i, eqIdx);
    assert (key, val) == FieldPair(str[start..i]);
    SplitStep(str, start, i);
    ghost var rest := if i == |str| then [] else Split(str[i + 1..]);
    CollectFirst(str[start..i], rest, before, maxKeys);
    if i == |str| { NothingLeft(before[key := if key in before then Append(before[key], val) else One(val)], maxKeys); }
    hide Split, Collect, FieldPairs, SafeDecode, PlusToSpace, Append, Parse, FieldPair;
    count := keyCount;
    full := false;
    if key !in before {
      result := before[key := One(val)];
      assert result.Keys == before.Keys + {key};
      count := count + 1;
      full := count >= maxKeys;
    } else {
      result := before[key := Append(before[key], val)];
      assert result.Keys == before.Keys;
    }
  }

  /** One pass over the text with a start index and the index of the first equals sign since. */
  method FastParseQuery(str: string, maxKeys: int) returns (result: map<string, Value>)
    ensures result == Parse(str, maxKeys)
  {
    hide *;
    result := map[];
    StartOnTrack(str, maxKeys);
    if str == [] { return; }
    var start, eqIdx, keyCount := 0, -1, 0;
    NoEquals(str, 0);
    var i := 0;
    while i <= |str|
      invariant 0 <= start <= i <= |str| + 1 && (i == |str| + 1 ==> start == i)
      invariant OnTrack(str, start, result, maxKeys)
      invariant i <= |str| ==> (forall k :: start <= k < i ==> str[k] != '&') && EqualsAt(str, start, i, eqIdx)
      invariant keyCount == |result|
    {
      if i == |str| || str[i] == '&' {
        if start == i {
          SkipEmptyField(str, start, result, maxKeys);
        } else {
          var full;
          result, keyCount, full := AddField(str, start, i, eqIdx, result, keyCount, maxKeys);
          if full { return; }
        }
        start := i + 1;
        eqIdx := -1;
        if start <= |str| { NoEquals(str, start); }
      } else {
        EqualsNext(str, start, i, eqIdx);
        if str[i] == '=' && eqIdx == -1 { eqIdx := i; }
      }
      i := i + 1;
    }
    AllRead(str, result, maxKeys);
  }

  lemma StartOnTrack(str: string, maxKeys: int)
    ensures OnTrack(str, 0, map[], maxKeys) && (str == [] ==> Parse(str, maxKeys) == map[])
  {
    assert str[0..] == str;
  }

  lemma AllRead(str: string, result: map<string, Value>, maxKeys: int)
    requires OnTrack(str, |str| + 1, result, maxKeys)
    ensures result == Parse(str, maxKeys)
  {}

  /** `eqIdx` is the first equals sign of the stretch, or -1. */
  predicate EqualsAt(s: string, start: nat, i: nat, eqIdx: int)
    requires start <= i <= |s|
  {
    if eqIdx == -1 then forall k :: start <= k < i ==> s[k] != '='
    else start <= eqIdx < i && s[eqIdx] == '=' && forall k :: start <= k < eqIdx ==> s[k] != '='
  }

  lemma NoEquals(s: string, start: nat)
    requires start <= |s|
    ensures EqualsAt(s, start, start, -1)
  {}

  lemma EqualsNext(s: string, start: nat, i: nat, eqIdx: int)
    requires start <= i < |s| && EqualsAt(s, start, i, eqIdx)
    ensures EqualsAt(s, start, i + 1, if s[i] == '=' && eqIdx == -1 then i else eqIdx)
  {}

  lemma FieldParts(s: string, start: nat, i: nat, eqIdx: int)
    requires start < i <= |s| && EqualsAt(s, start, i, eqIdx)
    ensures var f := s[start..i];
      && RawKey(f) == s[start..if eqIdx == -1 then i else eqIdx]
      && RawValue(f) == if eqIdx == -1 then [] else s[eqIdx + 1..i]
  {
    var f := s[start..i];
    IndexOfIs(f, '=', if eqIdx == -1 then |f| else eqIdx - start);
  }

  lemma NothingLeft(result: map<string, Value>, maxKeys: int)
    ensures Collect(FieldPairs([]), result, maxKeys) == result
  {}

  // ---- reading a canonical text ----------------------------------------------------------------------------------

  lemma FieldPairOfField(p: Pair)
    ensures FieldPair(Field(p)) == p
  {
    var k, v := U.Encode(p.0), U.Encode(p.1);
    FieldHalves(k, v, p);
    EncodedReads(p.0);
    EncodedReads(p.1);
  }

  lemma FieldHalves(k: string, v: string, p: Pair)
    requires k == U.Encode(p.0) && v == U.Encode(p.1)
    ensures RawKey(Field(p)) == k && RawValue(Field(p)) == v
  {
    U.EncodePlain(p.0);
    var f := Field(p);
    assert f == k + "=" + v && f[|k|] == '=';
    hide U.Encode, U.Unreserved;
    assert forall i :: 0 <= i < |k| ==> f[i] == k[i];
    EncodedLacks(p.0, '=');
    IndexOfIs(f, '=', |k|);
  }

  /** An encoded text has none of the characters with a meaning in a query string. */
  lemma EncodedLacks(s: string, c: char)
    requires c == '=' || c == '&' || c == '+'
    ensures Lacks(U.Encode(s), c)
  {
    U.EncodePlain(s);
  }

  lemma EncodedReads(s: string)
    ensures SafeDecode(PlusToSpace(U.Encode(s))) == s
  {
    EncodedLacks(s, '+');
    assert PlusToSpace(U.Encode(s)) == U.Encode(s);
    U.DecodeEncode(s);
  }

  lemma FieldIsOneField(p: Pair)
    ensures Field(p) != [] && forall i :: 0 <= i < |Field(p)| ==> Field(p)[i] != '&'
  {
    U.EncodePlain(p.0);
    U.EncodePlain(p.1);
  }

  ghost predicate AllFields(fields: seq<string>) {
    forall i :: 0 <= i < |fields| ==> fields[i] != [] && forall j :: 0 <= j < |fields[i]| ==> fields[i][j] != '&'
  }

  lemma {:induction false} SplitJoin(fields: seq<string>)
    requires AllFields(fields)
    ensures Split(Join(fields)) == fields
  {
    if fields != [] {
      var f, rest := fields[0], fields[1..];
      assert AllFields(rest) && Lacks(f, '&') && f != [];
      assert Join(fields) == if rest == [] then f else f + "&" + Join(rest);
      SplitJoin(rest);
      hide Split, Join, AllFields;
      SplitOne(f, Join(rest));
      assert fields == [f] + rest;
    }
  }

  lemma SplitOne(f: string, more: string)
    requires f != [] && Lacks(f, '&')
    ensures Split(f) == [f] && Split(f + "&" + more) == [f] + Split(more)
  {
    IndexOfIs(f, '&', |f|);
    assert f[..|f|] == f;
    var s := f + "&" + more;
    IndexOfIs(s, '&', |f|);
    assert s[..|f|] == f && s[|f| + 1..] == more;
  }

  lemma {:induction false} FieldsAreFields(ps: seq<Pair>)
    ensures AllFields(Fields(ps)) && FieldPairs(Fields(ps)) == ps
  {
    if ps != [] {
      FieldsAreFields(ps[1..]);
      FieldIsOneField(ps[0]);
      FieldPairOfField(ps[0]);
      hide Field, FieldPair;
      assert Fields(ps)[1..] == Fields(ps[1..]);
    }
  }

  /** The text of a list of pairs reads back as the same list. */
  lemma TextRoundTrip(ps: seq<Pair>)
    ensures FieldPairs(Split(Join(Fields(ps)))) == ps
  {
    FieldsAreFields(ps);
    SplitJoin(Fields(ps));
  }

  /** Two queries have the same canonical text exactly when they have the same pairs, each as often. */
  lemma SameTextIffSamePairs(q: Query, r: Query)
    requires Valid(q) && Valid(r)
    ensures Normalize(q) == Normalize(r) <==> Pairs(q) == Pairs(r)
  {
    CanonicalHoldsThePairs(q);
    CanonicalHoldsThePairs(r);
    TextRoundTrip(Canonical(q));
    TextRoundTrip(Canonical(r));
    hide Canonical, Pairs, Join, Fields, Split, FieldPairs;
    if Pairs(q) == Pairs(r) {
      PairLeIsAnOrder();
      CanonicalIsOrdered(q);
      CanonicalIsOrdered(r);
      OrderedIsUnique(PairLe, Canonical(q), Canonical(r));
    }
  }

  // ---- recovering the query -------------------------------------------------------------------------------------------

  function Bundle(items: seq<string>): Value {
    if |items| == 1 then One(items[0]) else Many(items)
  }

  /** The keys that have a value, in order. */
  function Filled(keys: seq<string>, values: map<string, Value>): (r: seq<string>)
    requires forall k :: k in keys ==> k in values
    ensures forall k :: k in r ==> k in keys
  {
    if keys == [] then []
    else (if Items(values[keys[0]]) == [] then [] else [keys[0]]) + Filled(keys[1..], values)
  }

  /** The query with its arrays sorted, one-element arrays as plain strings, and keys without values gone. */
  ghost function Recovered(values: map<string, Value>): map<string, Value> {
    map k | k in values && Items(values[k]) != [] :: Bundle(SortedItems(values[k]))
  }

  lemma SortedItemsEmpty(v: Value)
    ensures SortedItems(v) == [] <==> Items(v) == []
    ensures |SortedItems(v)| == |Items(v)|
  {}

  /** `result` with the recovered values of `keys` added. */
  ghost function With(result: map<string, Value>, keys: seq<string>, values: map<string, Value>): map<string, Value>
    requires forall k :: k in keys ==> k in values
    decreases keys
  {
    if keys == [] then result
    else if Items(values[keys[0]]) == [] then With(result, keys[1..], values)
    else With(result[keys[0] := Bundle(SortedItems(values[keys[0]]))], keys[1..], values)
  }

  lemma AppendBundle(have: seq<string>, item: string)
    requires have != []
    ensures Append(Bundle(have), item) == Bundle(have + [item])
  {
    if |have| == 1 { assert have == [have[0]]; }
  }

  lemma CollectAgain(key: string, item: string, rest: seq<Pair>, result: map<string, Value>, maxKeys: int)
    requires key in result
    ensures Collect([(key, item)] + rest, result, maxKeys) == Collect(rest, result[key := Append(result[key], item)], maxKeys)
  {
    var ps := [(key, item)] + rest;
    assert ps[0] == (key, item) && ps[1..] == rest;
  }

  /** More values of a key that is already there. */
  lemma {:induction false} CollectMore(key: string, items: seq<string>, rest: seq<Pair>, result: map<string, Value>, have: seq<string>, maxKeys: int)
    requires have != [] && key in result && result[key] == Bundle(have)
    ensures Collect(PairsOf(key, items) + rest, result, maxKeys) == Collect(rest, result[key := Bundle(have + items)], maxKeys)
    decreases |items|
  {
    hide Collect, Bundle, Append;
    if items == [] {
      assert have + items == have && PairsOf(key, items) + rest == rest;
      assert result[key := Bundle(have)] == result;
    } else {
      var tail := PairsOf(key, items[1..]) + rest;
      assert PairsOf(key, items) + rest == [(key, items[0])] + tail;
      CollectAgain(key, items[0], tail, result, maxKeys);
      AppendBundle(have, items[0]);
      var more := result[key := Bundle(have + [items[0]])];
      assert have + items == (have + [items[0]]) + items[1..];
      CollectMore(key, items[1..], rest, more, have + [items[0]], maxKeys);
      assert more[key := Bundle(have + items)] == result[key := Bundle(have + items)];
    }
  }

  /** All values of a key that is not there yet: stop at once at the limit, or go on with them bundled. */
  lemma CollectKey(key: string, items: seq<string>, rest: seq<Pair>, result: map<string, Value>, maxKeys: int)
    requires key !in result && items != []
    ensures Collect(PairsOf(key, items) + rest, result, maxKeys) ==
      if |result| + 1 >= maxKeys then result[key := One(items[0])] else Collect(rest, result[key := Bundle(items)], maxKeys)
  {
    var tail := PairsOf(key, items[1..]) + rest;
    assert PairsOf(key, items) + rest == [(key, items[0])] + tail;
    var more := result[key := One(items[0])];
    CollectNew(key, items[0], tail, result, maxKeys);
    if |result| + 1 < maxKeys {
      hide Collect, PairsOf;
      CollectMore(key, items[1..], rest, more, [items[0]], maxKeys);
      assert [items[0]] + items[1..] == items;
      assert more[key := Bundle(items)] == result[key := Bundle(items)];
    }
  }

  lemma CollectNew(key: string, item: string, rest: seq<Pair>, result: map<string, Value>, maxKeys: int)
    requires key !in result
    ensures Collect([(key, item)] + rest, result, maxKeys) ==
      var more := result[key := One(item)];
      if |result| + 1 >= maxKeys then more else Collect(rest, more, maxKeys)
  {
    var ps := [(key, item)] + rest;
    assert ps[0] == (key, item) && ps[1..] == rest;
    var more := result[key := One(item)];
    assert more.Keys == result.Keys + {key};
  }

  /** The parse of these keys is complete: the limit is not reached, or only by a last key with one value. */
  predicate Complete(have: nat, filled: seq<string>, values: map<string, Value>, maxKeys: int)
    requires forall k :: k in filled ==> k in values
  {
    || filled == []
    || have + |filled| < maxKeys
    || (have + |filled| == (if maxKeys > have + 1 then maxKeys else have + 1) && |Items(values[filled[|filled| - 1]])| == 1)
  }

  lemma {:induction false} WithKeys(result: map<string, Value>, keys: seq<string>, values: map<string, Value>)
    requires Distinct(keys) && (forall k :: k in keys ==> k in values && k !in result)
    ensures forall k :: k in With(result, keys, values) <==> k in result || (k in keys && Items(values[k]) != [])
    ensures forall k :: k in With(result, keys, values) ==>
      With(result, keys, values)[k] == if k in result then result[k] else Bundle(SortedItems(values[k]))
    ensures forall k :: k in Filled(keys, values) <==> k in keys && Items(values[k]) != []
    decreases |keys|
  {
    hide SortedItems;
    if keys != [] {
      assert keys == [keys[0]] + keys[1..];
      assert keys[0] !in keys[1..];
      if Items(values[keys[0]]) == [] {
        WithKeys(result, keys[1..], values);
      } else {
        SortedItemsEmpty(values[keys[0]]);
        WithKeys(result[keys[0] := Bundle(SortedItems(values[keys[0]]))], keys[1..], values);
      }
    }
  }

  lemma {:induction false} CollectFlattened(keys: seq<string>, values: map<string, Value>, result: map<string, Value>, maxKeys: int)
    requires Distinct(keys) && (forall k :: k in keys ==> k in values && k !in result)
    ensures Collect(Flatten(keys, values, true), result, maxKeys) == With(result, keys, values)
      <==> Complete(|result|, Filled(keys, values), values, maxKeys)
    decreases |keys|
  {
    if keys != [] {
      var key, items := keys[0], SortedItems(values[keys[0]]);
      var rest := Flatten(keys[1..], values, true);
      SortedItemsEmpty(values[key]);
      assert key !in keys[1..];
      UnfoldFlatten(keys, values, true);
      hide Flatten, SortedItems, Distinct;
      if items == [] {
        assert PairsOf(key, items) + rest == rest;
        CollectFlattened(keys[1..], values, result, maxKeys);
      } else {
        CollectKey(key, items, rest, result, maxKeys);
        CollectRest(keys, values, result, maxKeys, items, rest);
      }
    }
  }

  /** A first key with values: one more key collected, the others still to come. */
  lemma FirstKey(keys: seq<string>, values: map<string, Value>, result: map<string, Value>)
    requires keys != [] && Distinct(keys) && (forall k :: k in keys ==> k in values && k !in result)
    requires Items(values[keys[0]]) != []
    ensures keys[0] !in keys[1..] && Distinct(keys[1..]) && forall k :: k in keys[1..] ==> k in keys
    ensures Filled(keys, values) == [keys[0]] + Filled(keys[1..], values)
    ensures var more := result[keys[0] := Bundle(SortedItems(values[keys[0]]))];
      |more| == |result| + 1 && With(result, keys, values) == With(more, keys[1..], values)
  {
    var more := result[keys[0] := Bundle(SortedItems(values[keys[0]]))];
    assert more.Keys == result.Keys + {keys[0]};
  }

  lemma {:induction false} CollectRest(keys: seq<string>, values: map<string, Value>, result: map<string, Value>, maxKeys: int,
                                       items: seq<string>, rest: seq<Pair>)
    requires keys != [] && Distinct(keys) && (forall k :: k in keys ==> k in values && k !in result)
    requires items == SortedItems(values[keys[0]]) && items != [] && rest == Flatten(keys[1..], values, true)
    ensures (if |result| + 1 >= maxKeys then result[keys[0] := One(items[0])]
             else Collect(rest, result[keys[0] := Bundle(items)], maxKeys)) == With(result, keys, values)
      <==> Complete(|result|, Filled(keys, values), values, maxKeys)
    decreases |keys|, 0
  {
    var key := keys[0];
    var more := result[key := Bundle(items)];
    var filled := Filled(keys[1..], values);
    SortedItemsEmpty(values[key]);
    FirstKey(keys, values, result);
    hide SortedItems, Filled, Flatten, With, Collect, Distinct, Bundle;
    if |result| + 1 >= maxKeys {
      StoppedIsAll(key, items, keys[1..], values, result);
      assert filled == [] ==> ([key] + filled)[0] == key;
    } else {
      CollectFlattened(keys[1..], values, more, maxKeys);
      assert filled != [] ==> ([key] + filled)[|filled|] == filled[|filled| - 1];
      assert filled == [] ==> |[key] + filled| == 1;
    }
  }

  /** Stopping right after a key's first value is enough exactly if that was the last value of all. */
  lemma StoppedIsAll(key: string, items: seq<string>, keys: seq<string>, values: map<string, Value>, result: map<string, Value>)
    requires Distinct(keys) && items != [] && key !in keys && (forall k :: k in keys ==> k in values && k !in result)
    ensures result[key := One(items[0])] == With(result[key := Bundle(items)], keys, values)
      <==> Filled(keys, values) == [] && |items| == 1
  {
    var filled, more := Filled(keys, values), result[key := Bundle(items)];
    WithKeys(more, keys, values);
    var stopped, all := result[key := One(items[0])], With(more, keys, values);
    hide With, Filled;
    if filled == [] {
      assert forall k :: k in all <==> k in more;
      assert all == more;
      assert stopped[key] == One(items[0]) && more[key] == Bundle(items);
    } else {
      assert filled[0] in filled;
      assert filled[0] in all && filled[0] !in stopped;
    }
  }

  /**
    Parsing the canonical text gives the query back, arrays sorted, exactly when fewer than `maxKeys`
    keys have values, or just `maxKeys` (at least one) with a single value for the last of them.
   */
  lemma ParseRecoversTheQuery(q: Query, maxKeys: int)
    requires Valid(q)
    ensures forall k :: k in Sort(Le, q.keys) ==> k in q.values
    ensures Parse(Normalize(q), maxKeys) == Recovered(q.values)
      <==> Complete(0, Filled(Sort(Le, q.keys), q.values), q.values, maxKeys)
  {
    SortedKeysAre(q);
    var keys := Sort(Le, q.keys);
    TextRoundTrip(Canonical(q));
    CollectFlattened(keys, q.values, map[], maxKeys);
    hide Flatten, Complete, Filled, Collect, Sort;
    WithIsRecovered(keys, q.values);
  }

  /** Queries on the failing side: with a limit of one key, that key keeps only its first value. */
  lemma LastKeyKeepsOneValue(key: string, a: string, b: string)
    ensures var q := Query([key], map[key := Many([a, b])]);
      && Valid(q) && Sort(Le, [a, b]) != []
      && Parse(Normalize(q), 1) == map[key := One(Sort(Le, [a, b])[0])]
      && Recovered(q.values) == map[key := Many(Sort(Le, [a, b]))]
      && Parse(Normalize(q), 1) != Recovered(q.values)
  {
    var values := map[key := Many([a, b])];
    var q, items := Query([key], values), Sort(Le, [a, b]);
    OneKey(key);
    OneKeyPairs(key, items, values);
    OneKeyRecovered(key, items, values);
    hide Sort, Le, Flatten, Recovered, Collect, PairsOf;
    TextRoundTrip(Canonical(q));
    CollectKey(key, items, [], map[], 1);
    assert map[][key := One(items[0])] == map[key := One(items[0])];
  }

  lemma OneKeyPairs(key: string, items: seq<string>, values: map<string, Value>)
    requires key in values && items == SortedItems(values[key])
    ensures Flatten([key], values, true) == PairsOf(key, items) + []
  {
    hide SortedItems;
    assert [key][1..] == [];
  }

  lemma OneKeyRecovered(key: string, items: seq<string>, values: map<string, Value>)
    requires values.Keys == {key} && items == SortedItems(values[key]) && |items| == 2 && |Items(values[key])| == 2
    ensures Recovered(values) == map[key := Many(items)] && Recovered(values) != map[key := One(items[0])]
  {
    hide SortedItems;
    var r := Recovered(values);
    assert r[key] == Many(items) && map[key := One(items[0])][key] == One(items[0]);
  }

  lemma OneKey(key: string)
    ensures Sort(Le, [key]) == [key] && Distinct([key])
  {
    hide Sort, Le;
    var s := Sort(Le, [key]);
    assert s == [s[0]];
    assert s[0] in multiset(s);
  }

  lemma WithIsRecovered(keys: seq<string>, values: map<string, Value>)
    requires Distinct(keys) && forall k :: k in keys <==> k in values
    ensures With(map[], keys, values) == Recovered(values)
  {
    WithKeys(map[], keys, values);
    hide With, Filled, SortedItems;
  }

  /** Below the key limit the query always comes back. */
  lemma RecoversBelowTheLimit(q: Query, maxKeys: int)
    requires Valid(q) && |q.keys| < maxKeys
    ensures Parse(Normalize(q), maxKeys) == Recovered(q.values)
  {
    SortedKeysAre(q);
    FilledIsShort(Sort(Le, q.keys), q.values);
    ParseRecoversTheQuery(q, maxKeys);
  }

  lemma {:induction false} FilledIsShort(keys: seq<string>, values: map<string, Value>)
    requires forall k :: k in keys ==> k in values
    ensures |Filled(keys, values)| <= |keys|
  {
    if keys != [] { FilledIsShort(keys[1..], values); }
  }
}
