/** What the bounded cache holds after a history: what it weighs, what a write costs, what a read finds. */
module CacheContents {
  import opened OptionType
  import opened CacheStore
  import opened CacheHistory

  /** Body, key and 200 bytes of overhead for each record. */
  function Weight(records: seq<Rec>): nat {
    if records == [] then 0
    else
      var r := records[|records| - 1];
      Weight(records[..|records| - 1]) + |r.entry.payload| + |r.key| + 200
  }

  ghost predicate Weighed(records: seq<Rec>) {
    forall r :: r in records ==> r.bytes == |r.entry.payload| + |r.key| + 200
  }

  lemma {:induction false} TotalIsWeight(records: seq<Rec>)
    requires Weighed(records)
    ensures Total(records) == Weight(records)
    decreases |records|
  {
    if records != [] {
      var n := |records| - 1;
      TotalIsWeight(records[..n]);
      TotalConcat(records[..n], [records[n]]);
      assert records == records[..n] + [records[n]] && [records[n]][1..] == [];
    }
  }

  lemma SetWeighed(records: seq<Rec>, lim: Limits, key: Key, entry: Entry, lifeMs: int, now: int)
    requires Weighed(records)
    ensures Weighed(Set(records, lim, key, entry, lifeMs, now))
  {
    KeepMembers(records, KeyIsNot(key));
    var all := Keep(records, KeyIsNot(key)) + [Rec(key, entry, now + lifeMs, Size(key, entry))];
    var k := EvictKeepsLongestFittingSuffix(all, lim);
    hide Keep, Evict;
    assert forall r :: r in all[k..] ==> r in all;
  }

  lemma GetWeighed(records: seq<Rec>, key: Key, now: int)
    requires Weighed(records)
    ensures Weighed(Get(records, key, now).0)
  {
    KeepMembers(records, KeyIsNot(key));
    hide Keep, Find;
  }

  lemma {:induction false} AlwaysWeighed(events: seq<Event>, lim: Limits)
    ensures Weighed(After(events, lim).records)
    decreases |events|
  {
    hide Get, Set, Keep, Weighed;
    if events == [] {
      NothingWeighs();
    } else {
      var n := |events| - 1;
      var h, e := After(events[..n], lim), events[n];
      AlwaysWeighed(events[..n], lim);
      match e.op
      case DoGet(key) => GetWeighed(h.records, key, e.now);
      case DoSet(key, entry, lifeMs) => SetWeighed(h.records, lim, key, entry, lifeMs, e.now);
      case DoDelete(key) => KeptWeighed(h.records, KeyIsNot(key));
      case DoDeleteByPrefix(prefix) => KeptWeighed(h.records, KeyLacksPrefix(prefix));
      case DoSweep => KeptWeighed(h.records, LivesAt(e.now));
      case DoClear => NothingWeighs();
    }
  }

  lemma NothingWeighs()
    ensures Weighed([])
  {}

  lemma KeptWeighed(records: seq<Rec>, t: Test)
    requires Weighed(records)
    ensures Weighed(Keep(records, t))
  {
    KeepMembers(records, t);
  }

  /** The records without those of one key, in the same order. */
  function Others(records: seq<Rec>, key: Key): seq<Rec> {
    if records == [] then []
    else Others(records[..|records| - 1], key) + if records[|records| - 1].key == key then [] else [records[|records| - 1]]
  }

  lemma {:induction false} OthersAreKept(records: seq<Rec>, key: Key)
    ensures Others(records, key) == Keep(records, KeyIsNot(key))
    decreases |records|
  {
    if records != [] {
      var n := |records| - 1;
      OthersAreKept(records[..n], key);
      KeepNext(records[..n], records[n], KeyIsNot(key));
      assert records == records[..n] + [records[n]];
    }
  }

  predicate Within(records: seq<Rec>, lim: Limits) { |records| <= lim.maxEntries && Weight(records) <= lim.maxBytes }

  lemma WithinIsFits(records: seq<Rec>, k: nat, lim: Limits)
    requires Weighed(records) && k <= |records|
    ensures Within(records[k..], lim) <==> Fits(records[k..], lim)
  {
    TotalIsWeight(records[k..]);
  }

  /**
    A write after any history. An entry that alone is too large changes nothing; any other becomes
    the most recent record, in place of what its key held, and as many of the least recently used
    records go as have to for the rest to be within both limits, and not one more.
   */
  lemma WriteMeans(events: seq<Event>, lim: Limits, key: Key, entry: Entry, lifeMs: int, now: int) returns (k: nat)
    ensures var before := After(events, lim).records;
      var after := After(events + [Event(DoSet(key, entry, lifeMs), now)], lim).records;
      var size := |entry.payload| + |key| + 200;
      if size > lim.maxBytes then after == before
      else
        var all := Others(before, key) + [Rec(key, entry, now + lifeMs, size)];
        && k <= |all| && after == all[k..]
        && forall j :: 0 <= j <= |all| ==> (Within(all[j..], lim) <==> k <= j)
  {
    hide *;
    var before := After(events, lim).records;
    AlwaysWeighed(events, lim);
    WriteStep(events, lim, key, entry, lifeMs, now);
    k := WriteToRecords(before, lim, key, entry, lifeMs, now);
  }

  lemma WriteToRecords(before: seq<Rec>, lim: Limits, key: Key, entry: Entry, lifeMs: int, now: int) returns (k: nat)
    requires Weighed(before)
    ensures var after := Set(before, lim, key, entry, lifeMs, now);
      var size := |entry.payload| + |key| + 200;
      if size > lim.maxBytes then after == before
      else
        var all := Others(before, key) + [Rec(key, entry, now + lifeMs, size)];
        && k <= |all| && after == all[k..]
        && forall j :: 0 <= j <= |all| ==> (Within(all[j..], lim) <==> k <= j)
  {
    hide *;
    var size := |entry.payload| + |key| + 200;
    var all := Others(before, key) + [Rec(key, entry, now + lifeMs, size)];
    OthersAreKept(before, key);
    SetIs(before, lim, key, entry, lifeMs, now);
    KeptWeighed(before, KeyIsNot(key));
    OneMoreWeighed(Others(before, key), Rec(key, entry, now + lifeMs, size));
    k := EvictKeepsLongestFittingSuffix(all, lim);
    forall j | 0 <= j <= |all| ensures Within(all[j..], lim) <==> k <= j { WithinIsFits(all, j, lim); }
  }

  lemma SetIs(before: seq<Rec>, lim: Limits, key: Key, entry: Entry, lifeMs: int, now: int)
    ensures var size := |entry.payload| + |key| + 200;
      Set(before, lim, key, entry, lifeMs, now) ==
        if size > lim.maxBytes then before else Evict(Keep(before, KeyIsNot(key)) + [Rec(key, entry, now + lifeMs, size)], lim)
  {
    hide Keep, Evict;
  }

  lemma OneMoreWeighed(records: seq<Rec>, r: Rec)
    requires Weighed(records) && r.bytes == |r.entry.payload| + |r.key| + 200
    ensures Weighed(records + [r])
  {}

  lemma WriteStep(events: seq<Event>, lim: Limits, key: Key, entry: Entry, lifeMs: int, now: int)
    ensures After(events + [Event(DoSet(key, entry, lifeMs), now)], lim).records == Set(After(events, lim).records, lim, key, entry, lifeMs, now)
  {
    var more := events + [Event(DoSet(key, entry, lifeMs), now)];
    assert more[..|more| - 1] == events;
    hide Set;
  }

  predicate Spares(op: Op, now: int, r: Rec)
    requires !op.DoSet?
  {
    match op
    case DoGet(key) => r.key != key || now < r.expiresAt
    case DoDelete(key) => r.key != key
    case DoDeleteByPrefix(prefix) => |prefix| > |r.key| || r.key[..|prefix|] != prefix
    case DoSweep => now < r.expiresAt
    case DoClear => false
  }

  /** Any other operation: which keys are still held afterwards, each with the record it had. */
  lemma RemovalMeans(events: seq<Event>, lim: Limits, op: Op, now: int, r: Rec)
    requires !op.DoSet?
    ensures var before, after := After(events, lim).records, After(events + [Event(op, now)], lim).records;
      r in after <==> r in before && Spares(op, now, r)
  {
    var more := events + [Event(op, now)];
    assert more[..|more| - 1] == events;
    var h := After(events, lim);
    InvAfter(events, lim);
    hide After, Keep, Get, Core, Fits, Unique, Spares;
    match op
    case DoGet(key) => GetSpares(h.records, key, now, r);
    case DoDelete(key) => KeptSpared(h.records, KeyIsNot(key), op, now, r);
    case DoDeleteByPrefix(prefix) => KeptSpared(h.records, KeyLacksPrefix(prefix), op, now, r);
    case DoSweep => KeptSpared(h.records, LivesAt(now), op, now, r);
    case DoClear => ClearSparesNone(now, r);
  }

  lemma GetSpares(records: seq<Rec>, key: Key, now: int, r: Rec)
    requires Unique(records)
    ensures r in Get(records, key, now).0 <==> r in records && Spares(DoGet(key), now, r)
  {
    KeepMembers(records, KeyIsNot(key));
    if r in records && r.key == key { FindUnique(records, r); }
    hide Keep, Unique;
    var found := Find(records, key);
    hide Find;
  }

  lemma KeptSpared(records: seq<Rec>, t: Test, op: Op, now: int, r: Rec)
    requires match op
      case DoDelete(key) => t == KeyIsNot(key)
      case DoDeleteByPrefix(prefix) => t == KeyLacksPrefix(prefix)
      case DoSweep => t == LivesAt(now)
      case _ => false
    ensures r in Keep(records, t) <==> r in records && Spares(op, now, r)
  {
    KeepMembers(records, t);
    hide Keep;
  }

  lemma ClearSparesNone(now: int, r: Rec)
    ensures !Spares(DoClear, now, r)
  {}

  /** The refresh lock: granted unless one is held that has not run out; a granted one is held for its time. */
  lemma LockMeans(locks: map<Key, int>, key: Key, ttlMs: int, now: int, other: Key)
    ensures var (after, granted) := AcquireLock(locks, key, ttlMs, now);
      && (granted <==> key !in locks || locks[key] <= now)
      && key in after && after[key] == (if granted then now + ttlMs else locks[key])
      && (other != key ==> (other in after <==> other in locks) && (other in locks ==> after[other] == locks[other]))
    ensures var swept := SweepLocks(locks, now);
      (other in swept <==> other in locks && now < locks[other]) && (other in swept ==> swept[other] == locks[other])
  {}
}
