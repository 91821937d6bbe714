/** The in-process response cache: least recently used first, bounded in entries and bytes, expiring lazily. */
module CacheStore {
  import opened OptionType

  type Key = string

  /** A stored response. The body is its UTF-8 bytes; times and lifetimes are in milliseconds. */
  datatype Entry = Entry(
    payload: seq<int>,
    statusCode: int,
    contentType: string,
    etag: Option<string>,
    storedAt: int,
    ttlMs: int,
    swrMs: int,
    vary: map<string, string>)

  datatype Rec = Rec(key: Key, entry: Entry, expiresAt: int, bytes: nat)

  datatype Limits = Limits(maxEntries: nat, maxBytes: nat)

  const ENTRY_OVERHEAD_BYTES: nat := 200

  function Size(key: Key, entry: Entry): nat { |entry.payload| + |key| + ENTRY_OVERHEAD_BYTES }

  function Total(records: seq<Rec>): nat {
    if records == [] then 0 else records[0].bytes + Total(records[1..])
  }

  predicate Fits(records: seq<Rec>, lim: Limits) {
    |records| <= lim.maxEntries && Total(records) <= lim.maxBytes
  }

  // ---- what each operation does to the records, oldest use first ---------------------------------------

  /** Which records an operation leaves in place. */
  datatype Test = KeyIsNot(key: Key) | KeyLacksPrefix(prefix: string) | LivesAt(now: int)

  predicate Passes(t: Test, r: Rec) {
    match t
    case KeyIsNot(key) => r.key != key
    case KeyLacksPrefix(prefix) => !(prefix <= r.key)
    case LivesAt(now) => r.expiresAt > now
  }

  function Keep(records: seq<Rec>, t: Test): seq<Rec> {
    if records == [] then []
    else (if Passes(t, records[0]) then [records[0]] else []) + Keep(records[1..], t)
  }

  function Find(records: seq<Rec>, key: Key): (r: Option<Rec>)
    ensures r.Some? ==> r.value in records && r.value.key == key
    ensures r.None? ==> forall x :: x in records ==> x.key != key
  {
    if records == [] then None
    else if records[0].key == key then Some(records[0])
    else Find(records[1..], key)
  }

  /** Drops the least recently used records until the rest fits. */
  function Evict(records: seq<Rec>, lim: Limits): seq<Rec> {
    if records == [] || Fits(records, lim) then records else Evict(records[1..], lim)
  }

  /** An expired record is dropped and missed; a live one is returned and becomes the most recent. */
  function Get(records: seq<Rec>, key: Key, now: int): (seq<Rec>, Option<Entry>) {
    var found := Find(records, key);
    if found.None? then (records, None)
    else if found.value.expiresAt <= now then (Keep(records, KeyIsNot(key)), None)
    else (Keep(records, KeyIsNot(key)) + [found.value], Some(found.value.entry))
  }

  /** An entry that alone exceeds the byte limit is refused; any other replaces its key and evicts. */
  function Set(records: seq<Rec>, lim: Limits, key: Key, entry: Entry, lifeMs: int, now: int): seq<Rec> {
    var bytes := Size(key, entry);
    if bytes > lim.maxBytes then records
    else Evict(Keep(records, KeyIsNot(key)) + [Rec(key, entry, now + lifeMs, bytes)], lim)
  }

  // ---- refresh locks --------------------------------------------------------------------------------------

  function AcquireLock(locks: map<Key, int>, key: Key, ttlMs: int, now: int): (map<Key, int>, bool) {
    if key in locks && locks[key] > now then (locks, false)
    else (locks[key := now + ttlMs], true)
  }

  function SweepLocks(locks: map<Key, int>, now: int): map<Key, int> {
    map k | k in locks && locks[k] > now :: locks[k]
  }

  // ---- lemmas about the records -----------------------------------------------------------------------------

  ghost predicate Unique(records: seq<Rec>) {
    forall i, j :: 0 <= i < j < |records| ==> records[i].key != records[j].key
  }

  lemma {:induction false} TotalConcat(a: seq<Rec>, b: seq<Rec>)
    ensures Total(a + b) == Total(a) + Total(b)
  {
    if a == [] {
      assert a + b == b;
    } else {
      assert (a + b)[1..] == a[1..] + b;
      TotalConcat(a[1..], b);
    }
  }

  lemma {:induction false} KeepMembers(records: seq<Rec>, t: Test)
    ensures forall r :: r in Keep(records, t) <==> r in records && Passes(t, r)
    ensures |Keep(records, t)| <= |records|
    ensures Unique(records) ==> Unique(Keep(records, t))
  {
    if records != [] {
      var rest := Keep(records[1..], t);
      KeepMembers(records[1..], t);
      assert records == [records[0]] + records[1..];
      if Unique(records) {
        assert forall i :: 0 <= i < |rest| ==> rest[i] in rest;
        assert forall r :: r in records[1..] ==> r.key != records[0].key;
      }
    }
  }

  lemma {:induction false} KeepShrinks(records: seq<Rec>, t: Test)
    ensures Total(Keep(records, t)) <= Total(records)
  {
    if records != [] {
      KeepShrinks(records[1..], t);
      TotalConcat(if Passes(t, records[0]) then [records[0]] else [], Keep(records[1..], t));
    }
  }

  lemma TotalWithout(kept: seq<Rec>, rest: seq<Rec>)
    requires rest != []
    ensures Total(kept + rest) == Total(kept + rest[1..]) + rest[0].bytes
  {
    TotalConcat(kept, rest);
    TotalConcat(kept, rest[1..]);
  }

  lemma Regroup(a: seq<Rec>, b: seq<Rec>)
    requires b != []
    ensures a + b == (a + [b[0]]) + b[1..]
  {}

  lemma {:induction false} KeepConcat(a: seq<Rec>, b: seq<Rec>, t: Test)
    ensures Keep(a + b, t) == Keep(a, t) + Keep(b, t)
  {
    if a == [] {
      assert a + b == b;
    } else {
      assert (a + b)[1..] == a[1..] + b && (a + b)[0] == a[0];
      hide Passes;
      KeepConcat(a[1..], b, t);
    }
  }

  lemma KeepNext(done: seq<Rec>, r: Rec, t: Test)
    ensures Keep(done + [r], t) == Keep(done, t) + (if Passes(t, r) then [r] else [])
  {
    KeepConcat(done, [r], t);
    assert [r][1..] == [];
  }

  lemma {:induction false} SuffixTotal(records: seq<Rec>, i: nat, j: nat)
    requires i <= j <= |records|
    ensures Total(records[j..]) <= Total(records[i..])
    decreases j - i
  {
    if i < j {
      assert records[i..][1..] == records[i + 1..];
      SuffixTotal(records, i + 1, j);
    }
  }

  /**
    Eviction keeps exactly the longest most-recently-used suffix that fits: a suffix fits if and
    only if it is within the kept one.
   */
  lemma {:induction false} EvictKeepsLongestFittingSuffix(records: seq<Rec>, lim: Limits) returns (k: nat)
    ensures k <= |records| && Evict(records, lim) == records[k..]
    ensures forall j :: 0 <= j <= |records| ==> (Fits(records[j..], lim) <==> k <= j)
  {
    assert records[0..] == records;
    if records == [] || Fits(records, lim) {
      k := 0;
      forall j | 0 <= j <= |records| ensures Fits(records[j..], lim) { SuffixTotal(records, 0, j); }
    } else {
      var rest := EvictKeepsLongestFittingSuffix(records[1..], lim);
      k := rest + 1;
      forall j | 0 <= j <= |records| ensures Fits(records[j..], lim) <==> k <= j {
        if j > 0 { assert records[1..][j - 1..] == records[j..]; }
      }
    }
  }

  /** With room for one entry, an accepted entry survives its own eviction as the most recent record. */
  lemma AcceptedEntryStays(records: seq<Rec>, lim: Limits, key: Key, entry: Entry, lifeMs: int, now: int)
    requires lim.maxEntries >= 1 && Size(key, entry) <= lim.maxBytes
    ensures var after := Set(records, lim, key, entry, lifeMs, now);
      after != [] && after[|after| - 1] == Rec(key, entry, now + lifeMs, Size(key, entry))
  {
    var all := Keep(records, KeyIsNot(key)) + [Rec(key, entry, now + lifeMs, Size(key, entry))];
    var k := EvictKeepsLongestFittingSuffix(all, lim);
    var n := |all| - 1;
    assert all[n..] == [all[n]];
    assert all[n..][1..] == [];
    assert Fits(all[n..], lim);
  }

  /** What a set leaves, whether it was refused or accepted: distinct keys within both limits. */
  lemma SetFits(records: seq<Rec>, lim: Limits, key: Key, entry: Entry, lifeMs: int, now: int)
    requires Unique(records) && Fits(records, lim)
    ensures var after := Set(records, lim, key, entry, lifeMs, now); Unique(after) && Fits(after, lim)
  {
    if Size(key, entry) <= lim.maxBytes {
      var all := Keep(records, KeyIsNot(key)) + [Rec(key, entry, now + lifeMs, Size(key, entry))];
      KeepMembers(records, KeyIsNot(key));
      assert forall i :: 0 <= i < |all| - 1 ==> all[i] in Keep(records, KeyIsNot(key));
      assert Unique(all);
      var k := EvictKeepsLongestFittingSuffix(all, lim);
      assert all[|all|..] == [];
    }
  }

  lemma KeepFits(records: seq<Rec>, lim: Limits, t: Test)
    requires Unique(records) && Fits(records, lim)
    ensures Unique(Keep(records, t)) && Fits(Keep(records, t), lim)
  {
    KeepMembers(records, t);
    KeepShrinks(records, t);
  }

  lemma {:induction false} FindUnique(records: seq<Rec>, r: Rec)
    requires Unique(records) && r in records
    ensures Find(records, r.key) == Some(r)
  {
    if records[0] != r {
      assert r in records[1..];
      FindUnique(records[1..], r);
      var k :| 0 <= k < |records| && records[k] == r;
      assert records[0].key != records[k].key;
    }
  }

  /** A found record's bytes come off the total when it is taken out. */
  lemma {:induction false} TakeOut(records: seq<Rec>, r: Rec)
    requires Unique(records) && r in records
    ensures Total(Keep(records, KeyIsNot(r.key))) == Total(records) - r.bytes
    ensures |Keep(records, KeyIsNot(r.key))| == |records| - 1
  {
    var t := KeyIsNot(r.key);
    if records[0] == r {
      AllKept(records[1..], t);
      assert Keep(records, t) == records[1..];
    } else {
      assert r in records[1..];
      var k :| 0 <= k < |records| && records[k] == r;
      assert records[0].key != records[k].key;
      TakeOut(records[1..], r);
      TotalConcat([records[0]], Keep(records[1..], t));
    }
  }

  lemma {:induction false} AllKept(records: seq<Rec>, t: Test)
    requires forall r :: r in records ==> Passes(t, r)
    ensures Keep(records, t) == records
  {
    if records != [] {
      assert records[0] in records;
      AllKept(records[1..], t);
    }
  }

  lemma GetFits(records: seq<Rec>, lim: Limits, key: Key, now: int)
    requires Unique(records) && Fits(records, lim)
    ensures Unique(Get(records, key, now).0) && Fits(Get(records, key, now).0, lim)
  {
    KeepFits(records, lim, KeyIsNot(key));
    var found := Find(records, key);
    if found.Some? {
      TakeOut(records, found.value);
      KeepMembers(records, KeyIsNot(key));
      var kept := Keep(records, KeyIsNot(key));
      TotalConcat(kept, [found.value]);
      assert Total([found.value]) == found.value.bytes by { assert [found.value][1..] == []; }
      assert forall i :: 0 <= i < |kept| ==> kept[i] in kept;
    }
  }

  // ---- the store object ------------------------------------------------------------------------------------------

  class MemoryCacheStore {
    var records: seq<Rec>
    var locks: map<Key, int>
    var bytes: int
    const lim: Limits

    ghost predicate Valid()
      reads this
    {
      Unique(records) && bytes == Total(records) && Fits(records, lim)
    }

    constructor (lim: Limits)
      ensures Valid() && records == [] && locks == map[] && this.lim == lim
    {
      this.lim := lim;
      records, locks, bytes := [], map[], 0;
    }

    /** Map.delete, with the byte count kept in step. */
    method Remove(r: Rec)
      requires Unique(records) && r in records && bytes == Total(records)
      modifies this`records, this`bytes
      ensures records == Keep(old(records), KeyIsNot(r.key)) && bytes == Total(records)
      ensures Unique(records) && |records| == |old(records)| - 1 && r !in records
    {
      TakeOut(records, r);
      KeepMembers(records, KeyIsNot(r.key));
      records := Keep(records, KeyIsNot(r.key));
      bytes := bytes - r.bytes;
    }

    method DoGet(key: Key, now: int) returns (entry: Option<Entry>)
      requires Valid()
      modifies this`records, this`bytes
      ensures Valid() && (records, entry) == Get(old(records), key, now)
    {
      GetFits(records, lim, key, now);
      var rec := Find(records, key);
      if rec.None? { return None; }
      Remove(rec.value);
      if rec.value.expiresAt <= now { return None; }
      TotalConcat(records, [rec.value]);
      assert [rec.value][1..] == [];
      records := records + [rec.value];
      bytes := bytes + rec.value.bytes;
      return Some(rec.value.entry);
    }

    method DoSet(key: Key, entry: Entry, lifeMs: int, now: int)
      requires Valid()
      modifies this`records, this`bytes
      ensures Valid() && records == Set(old(records), lim, key, entry, lifeMs, now)
    {
      SetFits(records, lim, key, entry, lifeMs, now);
      var size := Size(key, entry);
      if size > lim.maxBytes { return; }
      var prev := Find(records, key);
      ghost var before := records;
      if prev.Some? { Remove(prev.value); }
      else { AllKept(records, KeyIsNot(key)); }
      assert records == Keep(before, KeyIsNot(key));
      var rec := Rec(key, entry, now + lifeMs, size);
      KeepMembers(before, KeyIsNot(key));
      assert forall i :: 0 <= i < |records| ==> records[i] in Keep(before, KeyIsNot(key));
      TotalConcat(records, [rec]);
      assert [rec][1..] == [];
      records := records + [rec];
      bytes := bytes + size;
      EvictOldest();
    }

    method EvictOldest()
      requires Unique(records) && bytes == Total(records)
      modifies this`records, this`bytes
      ensures records == Evict(old(records), lim) && bytes == Total(records) && Unique(records)
    {
      while |records| > lim.maxEntries || bytes > lim.maxBytes
        invariant Unique(records) && bytes == Total(records)
        invariant Evict(records, lim) == Evict(old(records), lim)
        decreases |records|
      {
        if records == [] { break; }
        var oldest := records[0];
        bytes := bytes - oldest.bytes;
        records := records[1..];
      }
    }

    method Delete(key: Key)
      requires Valid()
      modifies this`records, this`bytes
      ensures Valid() && records == Keep(old(records), KeyIsNot(key))
    {
      KeepFits(records, lim, KeyIsNot(key));
      var rec := Find(records, key);
      if rec.None? {
        AllKept(records, KeyIsNot(key));
        return;
      }
      Remove(rec.value);
    }

    method DeleteByPrefix(prefix: string)
      requires Valid()
      modifies this`records, this`bytes
      ensures Valid() && records == Keep(old(records), KeyLacksPrefix(prefix))
    {
      RemoveFailing(KeyLacksPrefix(prefix));
    }

    /** The loop over the map's entries that deletes those failing the test. */
    method RemoveFailing(t: Test)
      requires Valid()
      modifies this`records, this`bytes
      ensures Valid() && records == Keep(old(records), t)
    {
      KeepFits(records, lim, t);
      var kept: seq<Rec>, rest := [], records;
      ghost var done: seq<Rec> := [];
      ghost var all := records;
      assert done + rest == all && kept + rest == all && Keep(done, t) == [];
      hide Unique, Fits, Keep, Passes, Total;
      while rest != []
        invariant records == kept + rest && bytes == Total(records)
        invariant done + rest == all && kept == Keep(done, t)
        decreases |rest|
      {
        var rec := rest[0];
        KeepNext(done, rec, t);
        Regroup(done, rest);
        Regroup(kept, rest);
        if !Passes(t, rec) {
          TotalWithout(kept, rest);
          records := kept + rest[1..];
          bytes := bytes - rec.bytes;
        } else {
          kept := kept + [rec];
        }
        done := done + [rec];
        rest := rest[1..];
      }
      assert done == all && kept + rest == kept;
    }

    method Clear()
      modifies this
      ensures Valid() && records == [] && locks == map[]
    {
      records, locks, bytes := [], map[], 0;
    }

    method AcquireRefreshLock(key: Key, ttlMs: int, now: int) returns (mine: bool)
      modifies this`locks
      ensures (locks, mine) == AcquireLock(old(locks), key, ttlMs, now)
    {
      if key in locks && locks[key] > now { return false; }
      locks := locks[key := now + ttlMs];
      return true;
    }

    method ReleaseRefreshLock(key: Key)
      modifies this`locks
      ensures locks == old(locks) - {key}
    {
      locks := locks - {key};
    }

    /** Expired records go, expired locks go. */
    method Sweep(now: int)
      requires Valid()
      modifies this
      ensures Valid() && records == Keep(old(records), LivesAt(now)) && locks == SweepLocks(old(locks), now)
    {
      RemoveFailing(LivesAt(now));
      var left := locks.Keys;
      ghost var before := locks;
      while left != {}
        invariant left <= before.Keys
        invariant locks == map k | k in before && (k in left || before[k] > now) :: before[k]
        invariant records == Keep(old(records), LivesAt(now)) && Valid()
        decreases |left|
      {
        var key :| key in left;
        left := left - {key};
        if locks[key] <= now { locks := locks - {key}; }
      }
    }
  }
}
