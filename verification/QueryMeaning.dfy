/** What the query parser makes of an arbitrary text, said of the text itself. */
module QueryMeaning {
  import opened OptionType
  import opened Query
  import opened QueryParser
  import opened Text
  import U = UriComponent

  // ---- the fields ------------------------------------------------------------------------------------------

  /** A stretch between ampersands, as long as possible and not empty. */
  predicate IsField(s: string, a: nat, b: nat) {
    && a < b <= |s|
    && (forall k :: a <= k < b ==> s[k] != '&')
    && (a == 0 || s[a - 1] == '&')
    && (b == |s| || s[b] == '&')
  }

  /** The stretches are all the fields from a position on, each once, from left to right. */
  ghost predicate AreFields(s: string, from: nat, spans: seq<(nat, nat)>) {
    && (forall i :: 0 <= i < |spans| ==> from <= spans[i].0 && IsField(s, spans[i].0, spans[i].1))
    && (forall i, j :: 0 <= i < j < |spans| ==> spans[i].1 <= spans[j].0)
    && (forall a: nat, b: nat :: from <= a && IsField(s, a, b) ==> (a, b) in spans)
  }

  ghost predicate TextsAt(s: string, spans: seq<(nat, nat)>, fields: seq<string>) {
    |fields| == |spans| && forall i :: 0 <= i < |spans| ==> spans[i].0 <= spans[i].1 <= |s| && fields[i] == s[spans[i].0..spans[i].1]
  }

  /** Where the stretch that begins here ends. */
  function EndFrom(s: string, from: nat): (n: nat)
    requires from <= |s|
    ensures from <= n <= |s|
  {
    from + IndexOf(s[from..], '&')
  }

  function SpansFrom(s: string, from: nat): seq<(nat, nat)>
    requires from <= |s|
    decreases |s| - from
  {
    var n := EndFrom(s, from);
    (if n == from then [] else [(from, n)]) + (if n == |s| then [] else SpansFrom(s, n + 1))
  }

  /** A field that begins here ends at the next ampersand; one that begins later begins behind it. */
  lemma FieldsFrom(s: string, from: nat, n: nat, a: nat, b: nat)
    requires from <= n <= |s| && (forall k :: from <= k < n ==> s[k] != '&') && (n < |s| ==> s[n] == '&')
    requires from <= a && IsField(s, a, b)
    ensures (a == from && b == n) || n < a
  {}

  lemma {:induction false} SpansAreFields(s: string, from: nat)
    requires from <= |s| && (from == 0 || s[from - 1] == '&')
    ensures AreFields(s, from, SpansFrom(s, from))
    ensures TextsAt(s, SpansFrom(s, from), Split(s[from..]))
    decreases |s| - from
  {
    hide *;
    var n := EndFrom(s, from);
    UpToAmpersand(s, from, n);
    SplitStep(s, from, n);
    var rest := if n == |s| then [] else SpansFrom(s, n + 1);
    if n < |s| { SpansAreFields(s, n + 1); }
    FirstThenRest(s, from, n, rest);
    FirstTextThenRest(s, from, n, rest, if n == |s| then [] else Split(s[n + 1..]));
    SpansUnfold(s, from, n);
  }

  lemma UpToAmpersand(s: string, from: nat, n: nat)
    requires from <= |s| && n == EndFrom(s, from)
    ensures n <= |s| && (n < |s| ==> s[n] == '&') && forall k :: from <= k < n ==> s[k] != '&'
  {
    assert forall k :: from <= k < n ==> s[k] == s[from..][k - from];
  }

  lemma SpansUnfold(s: string, from: nat, n: nat)
    requires from <= n <= |s| && n == EndFrom(s, from)
    ensures SpansFrom(s, from) == (if n == from then [] else [(from, n)]) + (if n == |s| then [] else SpansFrom(s, n + 1))
  {
    hide EndFrom;
  }

  lemma FirstTextThenRest(s: string, from: nat, n: nat, rest: seq<(nat, nat)>, fields: seq<string>)
    requires from <= n <= |s| && (if n == |s| then rest == [] && fields == [] else TextsAt(s, rest, fields))
    ensures TextsAt(s, (if n == from then [] else [(from, n)]) + rest, (if from == n then [] else [s[from..n]]) + fields)
  {}

  lemma FirstThenRest(s: string, from: nat, n: nat, rest: seq<(nat, nat)>)
    requires from <= n <= |s| && (from == 0 || s[from - 1] == '&')
    requires (forall k :: from <= k < n ==> s[k] != '&') && (n < |s| ==> s[n] == '&')
    requires if n == |s| then rest == [] else AreFields(s, n + 1, rest)
    ensures AreFields(s, from, (if n == from then [] else [(from, n)]) + rest)
  {
    var spans := (if n == from then [] else [(from, n)]) + rest;
    forall a: nat, b: nat | from <= a && IsField(s, a, b) ensures (a, b) in spans {
      FieldsFrom(s, from, n, a, b);
      if a == from && b == n { assert (a, b) in [(from, n)]; } else { assert (a, b) in rest; }
    }
  }

  // ---- one field -------------------------------------------------------------------------------------------

  /** The text with blanks for plus signs, decoded if it is spelled correctly and as it stands otherwise. */
  ghost predicate ReadsAs(text: string, v: string) {
    exists plain: string ::
      && |plain| == |text| && (forall i :: 0 <= i < |text| ==> plain[i] == if text[i] == '+' then ' ' else text[i])
      && (U.Spells(plain, v) || (v == plain && forall t :: !U.Spells(plain, t)))
  }

  /** The first equals sign separates key and value; without one the value is empty. */
  ghost predicate FieldReadsAs(f: string, p: Pair) {
    || (exists e :: 0 <= e < |f| && f[e] == '=' && Lacks(f[..e], '=') && ReadsAs(f[..e], p.0) && ReadsAs(f[e + 1..], p.1))
    || (Lacks(f, '=') && ReadsAs(f, p.0) && p.1 == [])
  }

  lemma TextReads(text: string)
    ensures ReadsAs(text, SafeDecode(PlusToSpace(text)))
  {
    var plain := PlusToSpace(text);
    var v := SafeDecode(plain);
    forall t ensures U.Decode(plain) == Some(t) <==> U.Spells(plain, t) { U.DecodeMeans(plain, t); }
    hide U.Decode, U.Spells;
    if U.Decode(plain) == None {
      assert v == plain && forall t :: !U.Spells(plain, t);
    } else {
      assert U.Spells(plain, v);
    }
  }

  lemma FieldMeans(f: string)
    ensures FieldReadsAs(f, FieldPair(f))
  {
    var e := IndexOf(f, '=');
    TextReads(RawKey(f));
    TextReads(RawValue(f));
    hide ReadsAs, SafeDecode, PlusToSpace;
    if e == |f| {
      assert f[..e] == f;
      assert SafeDecode(PlusToSpace([])) == [] by { EmptyReads(); }
    } else {
      assert f[e] == '=' && Lacks(f[..e], '=');
    }
  }

  lemma EmptyReads()
    ensures SafeDecode(PlusToSpace([])) == []
  {
    assert PlusToSpace([]) == [];
  }

  // ---- the record ------------------------------------------------------------------------------------------

  ghost function KeysOf(ps: seq<Pair>): set<string> { set i | 0 <= i < |ps| :: ps[i].0 }

  /** The values given to a key, in order. */
  function ValuesFor(ps: seq<Pair>, key: string): seq<string> {
    if ps == [] then []
    else ValuesFor(ps[..|ps| - 1], key) + if ps[|ps| - 1].0 == key then [ps[|ps| - 1].1] else []
  }

  /** A string for one value, an array for more. */
  ghost predicate Tabulates(r: map<string, Value>, ps: seq<Pair>) {
    && r.Keys == KeysOf(ps)
    && forall k :: k in r ==> var vs := ValuesFor(ps, k); r[k] == if |vs| == 1 then One(vs[0]) else Many(vs)
  }

  /** Reading stops with the first pair that brings the number of keys to the limit, or at the end. */
  ghost predicate CutAt(ps: seq<Pair>, n: nat, maxKeys: int) {
    && n <= |ps|
    && (n < |ps| ==> n > 0 && |KeysOf(ps[..n])| >= maxKeys)
    && forall m :: 0 < m < n ==> |KeysOf(ps[..m])| < maxKeys
  }

  lemma {:induction false} ValuesForNone(ps: seq<Pair>, key: string)
    ensures ValuesFor(ps, key) == [] <==> key !in KeysOf(ps)
  {
    if ps != [] {
      var n := |ps| - 1;
      ValuesForNone(ps[..n], key);
      KeysGrow(ps, n);
      assert ps[..n + 1] == ps;
    }
  }

  lemma KeysGrow(ps: seq<Pair>, n: nat)
    requires n < |ps|
    ensures KeysOf(ps[..n + 1]) == KeysOf(ps[..n]) + {ps[n].0}
  {
    var a, b := ps[..n], ps[..n + 1];
    forall k | k in KeysOf(b) ensures k in KeysOf(a) + {ps[n].0} {
      var i :| 0 <= i < |b| && b[i].0 == k;
      if i < n { assert a[i].0 == k; }
    }
    forall k | k in KeysOf(a) + {ps[n].0} ensures k in KeysOf(b) {
      if k in KeysOf(a) {
        var i :| 0 <= i < |a| && a[i].0 == k;
        assert b[i].0 == k;
      } else {
        assert b[n].0 == k;
      }
    }
  }

  /** One more pair: a new key starts with it, a known one has it appended. */
  lemma TabulateOne(ps: seq<Pair>, n: nat, r: map<string, Value>)
    requires n < |ps| && Tabulates(r, ps[..n])
    ensures var (key, val) := ps[n];
      Tabulates(r[key := if key in r then Append(r[key], val) else One(val)], ps[..n + 1])
  {
    var (key, val) := ps[n];
    var a, b := ps[..n], ps[..n + 1];
    KeysGrow(ps, n);
    assert b[..n] == a;
    forall k ensures ValuesFor(b, k) == ValuesFor(a, k) + if k == key then [val] else [] {}
    ValuesForNone(a, key);
    hide ValuesFor, KeysOf;
    TabulateWith(a, b, key, val, r);
  }

  lemma TabulateWith(a: seq<Pair>, b: seq<Pair>, key: string, val: string, r: map<string, Value>)
    requires Tabulates(r, a) && KeysOf(b) == KeysOf(a) + {key} && (ValuesFor(a, key) == [] <==> key !in KeysOf(a))
    requires forall k :: ValuesFor(b, k) == ValuesFor(a, k) + if k == key then [val] else []
    ensures Tabulates(r[key := if key in r then Append(r[key], val) else One(val)], b)
  {
    hide ValuesFor, KeysOf;
    var more := r[key := if key in r then Append(r[key], val) else One(val)];
    assert more.Keys == r.Keys + {key};
  }

  lemma {:induction false} CollectMeans(ps: seq<Pair>, done: nat, r: map<string, Value>, maxKeys: int) returns (n: nat)
    requires done <= |ps| && Tabulates(r, ps[..done])
    requires forall m :: 0 < m <= done ==> |KeysOf(ps[..m])| < maxKeys
    ensures CutAt(ps, n, maxKeys) && Tabulates(Collect(ps[done..], r, maxKeys), ps[..n])
    decreases |ps| - done
  {
    hide KeysOf, Tabulates;
    if done == |ps| {
      n := done;
    } else {
      var (key, val) := ps[done];
      TabulateOne(ps, done, r);
      KeysGrow(ps, done);
      var more := r[key := if key in r then Append(r[key], val) else One(val)];
      TabulatedKeys(r, ps[..done]);
      TabulatedKeys(more, ps[..done + 1]);
      assert ps[done..][0] == ps[done] && ps[done..][1..] == ps[done + 1..];
      if key !in r && |more| >= maxKeys {
        n := done + 1;
      } else {
        if key in r {
          NothingYet(r, ps, done, key);
          assert KeysOf(ps[..done + 1]) == KeysOf(ps[..done]);
        }
        n := CollectMeans(ps, done + 1, more, maxKeys);
      }
    }
  }

  lemma TabulatedKeys(r: map<string, Value>, ps: seq<Pair>)
    requires Tabulates(r, ps)
    ensures r.Keys == KeysOf(ps) && |r| == |KeysOf(ps)|
  {
    assert |r| == |r.Keys|;
  }

  lemma NothingYet(r: map<string, Value>, ps: seq<Pair>, done: nat, key: string)
    requires done <= |ps| && Tabulates(r, ps[..done]) && key in r
    ensures done > 0
  {
    assert key in KeysOf(ps[..done]);
  }

  lemma {:induction false} PairsOfFields(fields: seq<string>)
    ensures |FieldPairs(fields)| == |fields|
    ensures forall i :: 0 <= i < |fields| ==> FieldPairs(fields)[i] == FieldPair(fields[i])
  {
    hide FieldPair;
    if fields != [] { PairsOfFields(fields[1..]); }
  }

  /** The fields of a text, what they read as, and how many of them are read. */
  ghost predicate Reading(s: string, spans: seq<(nat, nat)>, pairs: seq<Pair>, n: nat, maxKeys: int) {
    && AreFields(s, 0, spans) && |pairs| == |spans|
    && (forall i :: 0 <= i < |spans| ==> spans[i].0 <= spans[i].1 <= |s| && FieldReadsAs(s[spans[i].0..spans[i].1], pairs[i]))
    && CutAt(pairs, n, maxKeys)
  }

  /**
    For every text: the fields between ampersands, empty ones skipped, each split at its first equals
    sign, plus signs as blanks, escapes decoded or left alone, are tabulated in order up to the pair
    that brings the number of keys to the limit.
   */
  lemma ParseMeans(s: string, maxKeys: int)
    ensures exists spans, pairs, n :: Reading(s, spans, pairs, n, maxKeys) && Tabulates(Parse(s, maxKeys), pairs[..n])
  {
    var spans := SpansFrom(s, 0);
    assert s[0..] == s;
    SpansAreFields(s, 0);
    var fields := Split(s);
    var pairs := FieldPairs(fields);
    PairsOfFields(fields);
    hide Split, SpansFrom, FieldPair, FieldReadsAs, AreFields, FieldPairs;
    forall i | 0 <= i < |spans| ensures FieldReadsAs(s[spans[i].0..spans[i].1], pairs[i]) {
      FieldMeans(fields[i]);
    }
    assert pairs[..0] == [] && pairs[0..] == pairs;
    var n := CollectMeans(pairs, 0, map[], maxKeys);
    assert Reading(s, spans, pairs, n, maxKeys);
  }
}
