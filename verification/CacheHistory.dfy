/** Whole histories of the response cache against an unbounded table with expiry and a log of uses. */
module CacheHistory {
  import opened OptionType
  import opened CacheStore

  datatype Op =
    | DoGet(key: Key)
    | DoSet(key: Key, entry: Entry, lifeMs: int)
    | DoDelete(key: Key)
    | DoDeleteByPrefix(prefix: string)
    | DoSweep
    | DoClear

  /** An operation and the clock reading it saw. */
  datatype Event = Event(op: Op, now: int)

  datatype Stored = Stored(entry: Entry, expiresAt: int)

  /** `table` never forgets for lack of room; `used` numbers the last accepted write or successful read of a key. */
  datatype History = History(records: seq<Rec>, table: map<Key, Stored>, used: map<Key, nat>)

  function Next(h: History, lim: Limits, e: Event, n: nat): History {
    match e.op
    case DoGet(key) =>
      var (records, found) := Get(h.records, key, e.now);
      History(records,
              if key in h.table && h.table[key].expiresAt <= e.now then h.table - {key} else h.table,
              if found.Some? then h.used[key := n] else h.used)
    case DoSet(key, entry, lifeMs) =>
      if Size(key, entry) > lim.maxBytes then h.(records := Set(h.records, lim, key, entry, lifeMs, e.now))
      else
        History(Set(h.records, lim, key, entry, lifeMs, e.now),
                h.table[key := Stored(entry, e.now + lifeMs)],
                h.used[key := n])
    case DoDelete(key) => h.(records := Keep(h.records, KeyIsNot(key)), table := h.table - {key})
    case DoDeleteByPrefix(prefix) =>
      h.(records := Keep(h.records, KeyLacksPrefix(prefix)),
         table := map k | k in h.table && !(prefix <= k) :: h.table[k])
    case DoSweep =>
      h.(records := Keep(h.records, LivesAt(e.now)),
         table := map k | k in h.table && h.table[k].expiresAt > e.now :: h.table[k])
    case DoClear => History([], map[], h.used)
  }

  function After(events: seq<Event>, lim: Limits): History {
    if events == [] then History([], map[], map[])
    else Next(After(events[..|events| - 1], lim), lim, events[|events| - 1], |events| - 1)
  }

  // ---- the invariant -----------------------------------------------------------------------------------------

  ghost predicate InTable(h: History, r: Rec) {
    r.key in h.table && h.table[r.key] == Stored(r.entry, r.expiresAt) && r.key in h.used
  }

  /** Records stand in the order of their last use. */
  ghost predicate ByUse(records: seq<Rec>, used: map<Key, nat>) {
    && (forall i :: 0 <= i < |records| ==> records[i].key in used)
    && (forall i, j :: 0 <= i < j < |records| ==> used[records[i].key] < used[records[j].key])
  }

  ghost predicate Holds(records: seq<Rec>, key: Key) {
    exists r :: r in records && r.key == key
  }

  /** A key of the table that is no longer held was used before every record that is. */
  ghost predicate EvictedEarlier(h: History) {
    forall key, r :: key in h.table && key in h.used && !Holds(h.records, key) && r in h.records && r.key in h.used ==>
      h.used[key] < h.used[r.key]
  }

  ghost predicate Inv(h: History, lim: Limits, n: nat) {
    Unique(h.records) && Fits(h.records, lim) && Core(h, n)
  }

  ghost predicate Core(h: History, n: nat) {
    && (forall r :: r in h.records ==> InTable(h, r))
    && ByUse(h.records, h.used)
    && (forall key :: key in h.table ==> key in h.used)
    && (forall key :: key in h.used ==> h.used[key] < n)
    && EvictedEarlier(h)
  }

  lemma {:induction false} KeepByUse(records: seq<Rec>, t: Test, used: map<Key, nat>)
    requires ByUse(records, used)
    ensures ByUse(Keep(records, t), used)
  {
    if records != [] {
      var rest := Keep(records[1..], t);
      SuffixByUse(records, 1, used);
      KeepByUse(records[1..], t, used);
      KeepMembers(records[1..], t);
      FirstByUse(records, used);
      hide ByUse;
      assert forall r :: r in rest ==> r in records[1..];
      ConsByUse(records[0], rest, used);
    }
  }

  lemma FirstByUse(records: seq<Rec>, used: map<Key, nat>)
    requires records != [] && ByUse(records, used)
    ensures records[0].key in used
    ensures forall r :: r in records[1..] ==> r.key in used && used[records[0].key] < used[r.key]
  {}

  lemma ConsByUse(first: Rec, rest: seq<Rec>, used: map<Key, nat>)
    requires ByUse(rest, used) && first.key in used
    requires forall r :: r in rest ==> r.key in used && used[first.key] < used[r.key]
    ensures ByUse([first] + rest, used)
  {}

  /** Records and table lose the same keys: those that fail a test. */
  lemma RemoveKeeps(h: History, lim: Limits, n: nat, t: Test, table: map<Key, Stored>)
    requires Inv(h, lim, n)
    requires forall k :: k in table ==> k in h.table && table[k] == h.table[k]
    requires forall r :: r in h.records && Passes(t, r) ==> r.key in table
    requires forall r :: r in h.records && !Passes(t, r) ==> r.key !in table
    ensures Inv(h.(records := Keep(h.records, t), table := table), lim, n)
  {
    var v := h.(records := Keep(h.records, t), table := table);
    hide Keep, ByUse, Unique, Fits;
    KeepFits(h.records, lim, t);
    KeepMembers(h.records, t);
    KeepByUse(h.records, t, h.used);
    forall key | key in table && Holds(h.records, key) ensures Holds(v.records, key) {
      var x :| x in h.records && x.key == key;
      assert x in v.records;
    }
  }

  /** The most recent record: whatever stands before it was used earlier. */
  lemma AppendByUse(records: seq<Rec>, r: Rec, used: map<Key, nat>, n: nat)
    requires ByUse(records, used) && (forall i :: 0 <= i < |records| ==> records[i].key != r.key)
    requires forall key :: key in used ==> used[key] < n
    ensures ByUse(records + [r], used[r.key := n])
  {}

  lemma SuffixByUse(records: seq<Rec>, k: nat, used: map<Key, nat>)
    requires k <= |records| && ByUse(records, used)
    ensures ByUse(records[k..], used)
  {}

  /** A key's record replaced or renewed as the most recent one, before any eviction. */
  function Renewed(h: History, n: nat, r: Rec): History {
    History(Keep(h.records, KeyIsNot(r.key)) + [r], h.table[r.key := Stored(r.entry, r.expiresAt)], h.used[r.key := n])
  }

  lemma RenewKeeps(h: History, n: nat, r: Rec)
    requires Core(h, n)
    ensures Core(Renewed(h, n, r), n + 1)
  {
    hide Keep, ByUse, EvictedEarlier;
    var kept := Keep(h.records, KeyIsNot(r.key));
    KeepMembers(h.records, KeyIsNot(r.key));
    KeepByUse(h.records, KeyIsNot(r.key), h.used);
    assert forall i :: 0 <= i < |kept| ==> kept[i] in kept;
    AppendByUse(kept, r, h.used, n);
    RenewEarlier(h, n, r, kept);
  }

  lemma RenewEarlier(h: History, n: nat, r: Rec, kept: seq<Rec>)
    requires EvictedEarlier(h) && (forall key :: key in h.used ==> h.used[key] < n)
    requires forall key :: key in h.table ==> key in h.used
    requires forall x :: x in kept <==> x in h.records && x.key != r.key
    ensures EvictedEarlier(History(kept + [r], h.table[r.key := Stored(r.entry, r.expiresAt)], h.used[r.key := n]))
  {
    var records := kept + [r];
    assert r in records;
    assert Holds(records, r.key);
    forall key | Holds(h.records, key) ensures Holds(records, key) {
      var y :| y in h.records && y.key == key;
      assert key != r.key ==> y in records;
    }
  }

  lemma EvictKeeps(h: History, lim: Limits, n: nat)
    requires Core(h, n)
    ensures Core(h.(records := Evict(h.records, lim)), n)
  {
    var k := EvictKeepsLongestFittingSuffix(h.records, lim);
    hide Evict;
    SuffixKeeps(h, k);
  }

  lemma SuffixKeeps(h: History, k: nat)
    requires k <= |h.records|
    requires ByUse(h.records, h.used) && EvictedEarlier(h) && (forall x :: x in h.records ==> InTable(h, x))
    ensures var v := h.(records := h.records[k..]);
      ByUse(v.records, v.used) && EvictedEarlier(v) && (forall x :: x in v.records ==> InTable(v, x))
  {
    SuffixByUse(h.records, k, h.used);
    DroppedEarlier(h.records, k, h.used);
    hide ByUse, InTable;
    SplitAt(h.records, k);
    StillEarlier(h, h.records[..k], h.records[k..]);
  }

  lemma SplitAt(records: seq<Rec>, k: nat)
    requires k <= |records|
    ensures records == records[..k] + records[k..]
    ensures forall x :: x in records[k..] ==> x in records
  {}

  /** Dropping records that were all used earlier than the rest. */
  lemma StillEarlier(h: History, dropped: seq<Rec>, kept: seq<Rec>)
    requires EvictedEarlier(h) && h.records == dropped + kept
    requires forall key, x :: Holds(dropped, key) && x in kept ==> key in h.used && x.key in h.used && h.used[key] < h.used[x.key]
    ensures EvictedEarlier(h.(records := kept))
  {
    forall key | Holds(h.records, key) && !Holds(kept, key) ensures Holds(dropped, key) {
      var y :| y in h.records && y.key == key;
      assert y !in kept;
    }
  }

  lemma DroppedEarlier(records: seq<Rec>, k: nat, used: map<Key, nat>)
    requires k <= |records| && ByUse(records, used)
    ensures forall key, x :: Holds(records[..k], key) && x in records[k..] ==>
      key in used && x.key in used && used[key] < used[x.key]
  {
    forall key, x | Holds(records[..k], key) && x in records[k..]
      ensures key in used && x.key in used && used[key] < used[x.key]
    {
      var y :| y in records[..k] && y.key == key;
      var i :| 0 <= i < k && records[i] == y;
      var j :| 0 <= j < |records[k..]| && records[k..][j] == x;
      assert records[k + j] == x;
    }
  }

  lemma InvNext(h: History, lim: Limits, e: Event, n: nat)
    requires Inv(h, lim, n)
    ensures Inv(Next(h, lim, e, n), lim, n + 1)
  {
    match e.op
    case DoGet(key) => GetKeeps(h, lim, e, n);
    case DoSet(key, entry, lifeMs) => SetKeeps(h, lim, e, n);
    case DoDelete(key) =>
      RemoveKeeps(h, lim, n, KeyIsNot(key), h.table - {key});
      Later(Next(h, lim, e, n), lim, n);
    case DoDeleteByPrefix(prefix) =>
      RemoveKeeps(h, lim, n, KeyLacksPrefix(prefix), map k | k in h.table && !(prefix <= k) :: h.table[k]);
      Later(Next(h, lim, e, n), lim, n);
    case DoSweep =>
      RemoveKeeps(h, lim, n, LivesAt(e.now), map k | k in h.table && h.table[k].expiresAt > e.now :: h.table[k]);
      Later(Next(h, lim, e, n), lim, n);
    case DoClear =>
  }

  lemma Later(h: History, lim: Limits, n: nat)
    requires Inv(h, lim, n)
    ensures Inv(h, lim, n + 1)
  {}

  lemma SetKeeps(h: History, lim: Limits, e: Event, n: nat)
    requires Inv(h, lim, n) && e.op.DoSet?
    ensures Inv(Next(h, lim, e, n), lim, n + 1)
  {
    hide Core, Unique, Fits, Keep, Evict, Find;
    var key, entry, until := e.op.key, e.op.entry, e.now + e.op.lifeMs;
    SetFits(h.records, lim, key, entry, e.op.lifeMs, e.now);
    if Size(key, entry) <= lim.maxBytes {
      var r := Rec(key, entry, until, Size(key, entry));
      RenewKeeps(h, n, r);
      var v := Renewed(h, n, r);
      EvictKeeps(v, lim, n + 1);
      assert Next(h, lim, e, n) == v.(records := Evict(v.records, lim));
    } else {
      assert Next(h, lim, e, n) == h;
      Later(h, lim, n);
    }
  }

  lemma GetKeeps(h: History, lim: Limits, e: Event, n: nat)
    requires Inv(h, lim, n) && e.op.DoGet?
    ensures Inv(Next(h, lim, e, n), lim, n + 1)
  {
    var key := e.op.key;
    GetFits(h.records, lim, key, e.now);
    var found := Find(h.records, key);
    if found.None? {
      NotHeld(h, lim, e, n);
    } else {
      var r := found.value;
      assert InTable(h, r);
      if r.expiresAt <= e.now {
        assert forall x :: x in h.records && !Passes(KeyIsNot(key), x) ==> x.key == key;
        RemoveKeeps(h, lim, n, KeyIsNot(key), h.table - {key});
        Later(Next(h, lim, e, n), lim, n);
      } else {
        RenewKeeps(h, n, r);
        assert h.table[key := Stored(r.entry, r.expiresAt)] == h.table;
        hide Core, Unique, Fits;
      }
    }
  }

  lemma NotHeld(h: History, lim: Limits, e: Event, n: nat)
    requires Inv(h, lim, n) && e.op.DoGet? && Find(h.records, e.op.key).None?
    ensures Inv(Next(h, lim, e, n), lim, n + 1)
  {
    hide Unique, Fits, ByUse, Find;
    var v := Next(h, lim, e, n);
    assert v.records == h.records && v.used == h.used;
    assert forall x :: x in h.records ==> InTable(h, x) && x.key in v.table;
  }

  lemma {:induction false} InvAfter(events: seq<Event>, lim: Limits)
    ensures Inv(After(events, lim), lim, |events|)
    decreases |events|
  {
    if events != [] {
      InvAfter(events[..|events| - 1], lim);
      InvNext(After(events[..|events| - 1], lim), lim, events[|events| - 1], |events| - 1);
    }
  }

  // ---- what every history guarantees -----------------------------------------------------------------------------

  /** Both limits hold after every history, and the keys are distinct. */
  lemma LimitsHoldAfterEveryHistory(events: seq<Event>, lim: Limits)
    ensures var records := After(events, lim).records;
      |records| <= lim.maxEntries && Total(records) <= lim.maxBytes && Unique(records)
  {
    InvAfter(events, lim);
  }

  /** On the keys still held, a read answers exactly what the unbounded table with expiry would. */
  lemma GetAgreesWithTheUnboundedTable(events: seq<Event>, lim: Limits, key: Key, now: int)
    ensures var h := After(events, lim);
      Get(h.records, key, now).1 ==
        if Holds(h.records, key) && key in h.table && h.table[key].expiresAt > now then Some(h.table[key].entry) else None
    ensures Holds(After(events, lim).records, key) ==> key in After(events, lim).table
  {
    InvAfter(events, lim);
    var h := After(events, lim);
    var found := Find(h.records, key);
    if Holds(h.records, key) {
      var r :| r in h.records && r.key == key;
      FindUnique(h.records, r);
      assert InTable(h, r);
    }
  }

  /**
    Least recently used first, over whole histories: if one key of the table is held and another is
    not, the one that is not was last used earlier.
   */
  lemma OnlyLessRecentlyUsedKeysAreEvicted(events: seq<Event>, lim: Limits, held: Key, gone: Key)
    requires var h := After(events, lim); held in h.table && gone in h.table
    requires Holds(After(events, lim).records, held) && !Holds(After(events, lim).records, gone)
    ensures var h := After(events, lim);
      held in h.used && gone in h.used && h.used[gone] < h.used[held]
  {
    InvAfter(events, lim);
    var h := After(events, lim);
    var r :| r in h.records && r.key == held;
    assert InTable(h, r);
  }
}
