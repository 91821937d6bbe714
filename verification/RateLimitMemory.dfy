/** The in-memory store: one array per key with a moving start pointer, compaction and pruning. */
module RateLimitMemory {
  import opened RateLimitSpec
  import opened RateLimitRedis
  import opened Text

  datatype Hit = Hit(timestamps: seq<int>, start: nat, windowMs: int)

  function Live(h: Hit): seq<int>
    requires h.start <= |h.timestamps|
  {
    h.timestamps[h.start..]
  }

  function Without(order: seq<string>, key: string): (r: seq<string>)
    ensures forall k :: k in r <==> k in order && k != key
  {
    if order == [] then []
    else if order[0] == key then Without(order[1..], key)
    else [order[0]] + Without(order[1..], key)
  }

  lemma WithoutDistinct(order: seq<string>, key: string)
    requires Distinct(order)
    ensures Distinct(Without(order, key))
  {
    if order != [] {
      assert order[0] !in order[1..];
      WithoutDistinct(order[1..], key);
    }
  }

  function TimesOf(log: map<string, seq<int>>, key: string): seq<int> {
    if key in log then log[key] else []
  }

  ghost predicate Clocked(times: seq<int>, clock: int) {
    Sorted(times) && forall i :: 0 <= i < |times| ==> times[i] <= clock
  }

  /** What is stored for a key and what the request log says agree on everything not expired by `clock`. */
  ghost predicate KeyExact(hits: map<string, Hit>, key: string, times: seq<int>, window: int, clock: int) {
    && Clocked(times, clock)
    && if key in hits
       then var h := hits[key];
         && h.start <= |h.timestamps| && h.windowMs == window && Clocked(Live(h), clock)
         && DropExpired(Live(h), clock - window) == DropExpired(LiveAfter(times, window), clock - window)
       else DropExpired(LiveAfter(times, window), clock - window) == []
  }

  lemma LiveClocked(times: seq<int>, window: int, clock: int)
    requires Clocked(times, clock)
    ensures Clocked(LiveAfter(times, window), clock)
  {
    if times != [] {
      LiveIsWindow(times, window);
      var n := |times| - 1;
      var k := DropExpiredSuffix(times[..n], times[n] - window);
    }
  }

  lemma DropLater(s: seq<int>, t: seq<int>, a: int, b: int)
    requires a <= b && Sorted(s) && Sorted(t) && DropExpired(s, a) == DropExpired(t, a)
    ensures DropExpired(s, b) == DropExpired(t, b)
  {
    assert s + [] == s && t + [] == t;
    assert DropExpired(s, a) + [] == DropExpired(s, a) && DropExpired(t, a) + [] == DropExpired(t, a);
    DropDrop(s, [], a, b);
    DropDrop(t, [], a, b);
  }

  lemma KeyExactLater(hits: map<string, Hit>, key: string, times: seq<int>, window: int, clock: int, now: int)
    requires KeyExact(hits, key, times, window, clock) && clock <= now
    ensures KeyExact(hits, key, times, window, now)
  {
    LiveClocked(times, window, clock);
    if key in hits { DropLater(Live(hits[key]), LiveAfter(times, window), clock - window, now - window); }
    else { DropLater([], LiveAfter(times, window), clock - window, now - window); }
  }

  /** Advancing the start pointer over expired entries loses nothing that is still live. */
  lemma KeyExactPruned(hits: map<string, Hit>, hits': map<string, Hit>, key: string, times: seq<int>, window: int, now: int)
    requires key in hits && KeyExact(hits, key, times, window, now)
    requires var live := DropExpired(Live(hits[key]), now - window);
      if live == [] then key !in hits'
      else key in hits' && hits'[key].start <= |hits'[key].timestamps| && hits'[key].windowMs == window && Live(hits'[key]) == live
    ensures KeyExact(hits', key, times, window, now)
  {
    var live := Live(hits[key]);
    var k := DropExpiredSuffix(live, now - window);
    DropDrop(live, [], now - window, now - window);
    assert live + [] == live && DropExpired(live, now - window) + [] == DropExpired(live, now - window);
  }

  /** A request slides the window of its key. */
  lemma KeyExactSlide(hits: map<string, Hit>, key: string, times: seq<int>, window: int, now: int)
    requires KeyExact(hits, key, times, window, now)
    ensures Slide(if key in hits then Live(hits[key]) else [], now, window) == LiveAfter(times + [now], window)
    ensures Clocked(times + [now], now) && Clocked(LiveAfter(times + [now], window), now)
  {
    assert (times + [now])[..|times|] == times;
    LiveClocked(times + [now], window, now);
    if key !in hits { assert DropExpired([], now - window) == []; }
  }

  ghost predicate AllExact(hits: map<string, Hit>, log: map<string, seq<int>>, windowOf: string -> int, clock: int) {
    forall k :: KeyExact(hits, k, TimesOf(log, k), windowOf(k), clock)
  }

  lemma AllExactLater(hits: map<string, Hit>, log: map<string, seq<int>>, windowOf: string -> int, clock: int, now: int)
    requires AllExact(hits, log, windowOf, clock) && clock <= now
    ensures AllExact(hits, log, windowOf, now)
  {
    forall k ensures KeyExact(hits, k, TimesOf(log, k), windowOf(k), now) {
      KeyExactLater(hits, k, TimesOf(log, k), windowOf(k), clock, now);
    }
  }

  lemma AllExactPruned(hits: map<string, Hit>, hits': map<string, Hit>, log: map<string, seq<int>>, windowOf: string -> int,
                       now: int, key: string)
    requires AllExact(hits, log, windowOf, now) && key in hits && hits[key].start <= |hits[key].timestamps|
    requires forall k :: k != key ==> (k in hits' <==> k in hits) && (k in hits ==> hits'[k] == hits[k])
    requires var live := DropExpired(Live(hits[key]), now - hits[key].windowMs);
      if live == [] then key !in hits'
      else key in hits' && hits'[key].start <= |hits'[key].timestamps| && hits'[key].windowMs == hits[key].windowMs
           && Live(hits'[key]) == live
    ensures AllExact(hits', log, windowOf, now)
  {
    assert KeyExact(hits, key, TimesOf(log, key), windowOf(key), now);
    KeyExactPruned(hits, hits', key, TimesOf(log, key), windowOf(key), now);
    forall k | k != key ensures KeyExact(hits', k, TimesOf(log, k), windowOf(k), now) {
      assert KeyExact(hits, k, TimesOf(log, k), windowOf(k), now);
    }
  }

  lemma KeyExactStored(hits: map<string, Hit>, data: Hit, key: string, times: seq<int>, window: int, now: int)
    requires data.start <= |data.timestamps| && data.windowMs == window && Live(data) == LiveAfter(times, window)
    requires Clocked(times, now)
    ensures KeyExact(hits[key := data], key, times, window, now)
  {
    LiveClocked(times, window, now);
    hide LiveAfter, Clocked;
  }

  lemma AllExactSlid(hits: map<string, Hit>, data: Hit, log: map<string, seq<int>>, windowOf: string -> int, now: int, key: string)
    requires AllExact(hits, log, windowOf, now) && data.start <= |data.timestamps|
    requires key in hits ==> hits[key].start <= |hits[key].timestamps|
    requires Live(data) == Slide(if key in hits then Live(hits[key]) else [], now, windowOf(key))
    requires data.windowMs == if key in hits then hits[key].windowMs else windowOf(key)
    ensures var times := TimesOf(log, key) + [now];
      Live(data) == LiveAfter(times, windowOf(key)) && AllExact(hits[key := data], log[key := times], windowOf, now)
  {
    var times := TimesOf(log, key);
    assert KeyExact(hits, key, times, windowOf(key), now);
    KeyExactSlide(hits, key, times, windowOf(key), now);
    var hits', log' := hits[key := data], log[key := times + [now]];
    KeyExactStored(hits, data, key, times + [now], windowOf(key), now);
    hide LiveAfter, Slide, Clocked;
    forall k ensures KeyExact(hits', k, TimesOf(log', k), windowOf(k), now) {
      assert KeyExact(hits, k, TimesOf(log, k), windowOf(k), now);
    }
  }

  // ---- which keys are live -------------------------------------------------------------------------------

  /** The keys with a request less than one window old, by the request log. */
  ghost function LiveKeys(log: map<string, seq<int>>, windowOf: string -> int, now: int): set<string> {
    set k | k in log && DropExpired(LiveAfter(log[k], windowOf(k)), now - windowOf(k)) != []
  }

  /** Advanced past everything expired, with something left. */
  predicate Fresh(h: Hit, now: int) {
    h.start < |h.timestamps| && h.timestamps[h.start] > now - h.windowMs
  }

  /** What pruning makes of one entry: the unexpired rest, or nothing. */
  ghost predicate PrunedTo(h: Hit, hits: map<string, Hit>, k: string, now: int)
    requires h.start <= |h.timestamps|
  {
    var live := DropExpired(Live(h), now - h.windowMs);
    if k in hits then hits[k].start <= |hits[k].timestamps| && hits[k].windowMs == h.windowMs && Live(hits[k]) == live && Fresh(hits[k], now)
    else live == []
  }

  lemma DropExpiredHead(s: seq<int>, bound: int)
    ensures DropExpired(s, bound) == [] || DropExpired(s, bound)[0] > bound
  {}

  /** With every key exact and pruned, the keys stored are the live ones. */
  lemma PrunedKeysAreLive(hits: map<string, Hit>, log: map<string, seq<int>>, windowOf: string -> int, now: int)
    requires AllExact(hits, log, windowOf, now) && forall k :: k in hits ==> Fresh(hits[k], now)
    ensures hits.Keys == LiveKeys(log, windowOf, now)
  {
    forall k ensures k in hits <==> k in LiveKeys(log, windowOf, now) {
      assert KeyExact(hits, k, TimesOf(log, k), windowOf(k), now);
      if k in hits { assert DropExpired(Live(hits[k]), now - windowOf(k)) == Live(hits[k]); }
    }
  }

  /** At the moment of a request, with a positive window, nothing of its key has expired. */
  lemma NothingExpiredYet(times: seq<int>, window: int)
    requires times != [] && Sorted(times) && window > 0
    ensures DropExpired(LiveAfter(times, window), times[|times| - 1] - window) == LiveAfter(times, window)
  {
    CountIsWindowCount(times, window);
  }

  lemma WindowKnown(hits: map<string, Hit>, log: map<string, seq<int>>, windowOf: string -> int, now: int, key: string)
    requires AllExact(hits, log, windowOf, now)
    ensures key in hits ==> hits[key].windowMs == windowOf(key)
  {
    assert KeyExact(hits, key, TimesOf(log, key), windowOf(key), now);
  }

  lemma RequestIsLive(hits: map<string, Hit>, log: map<string, seq<int>>, windowOf: string -> int, now: int, key: string)
    requires var times := TimesOf(log, key); times != [] && times[|times| - 1] == now
    ensures AllExact(hits, log, windowOf, now) && windowOf(key) > 0 ==> var live := LiveAfter(TimesOf(log, key), windowOf(key)); DropExpired(live, now - windowOf(key)) == live
  {
    if AllExact(hits, log, windowOf, now) && windowOf(key) > 0 {
      assert KeyExact(hits, key, TimesOf(log, key), windowOf(key), now);
      NothingExpiredYet(TimesOf(log, key), windowOf(key));
    }
  }

  lemma ReadingIs(data: Hit, now: int, windowMs: int)
    requires data.start <= |data.timestamps|
    ensures ReadingOf(Live(data), now, windowMs) == Reading(
      |data.timestamps| - data.start,
      CeilDiv((if data.start < |data.timestamps| then data.timestamps[data.start] else now) + windowMs, 1000))
  {}

  lemma Disjoint(keys: seq<string>, i: nat)
    requires Distinct(keys) && i < |keys|
    ensures keys[i] in keys[i..] && keys[i] !in keys[i + 1..] && keys[i] !in keys[..i]
    ensures forall k :: k in keys[i + 1..] ==> k in keys[i..]
    ensures forall k :: k in keys[..i + 1] ==> k in keys[..i] || k == keys[i]
  {
    assert keys[i..] == [keys[i]] + keys[i + 1..] && keys[..i + 1] == keys[..i] + [keys[i]];
  }

  lemma PrunedStays(h: Hit, hits: map<string, Hit>, hits': map<string, Hit>, k: string, now: int)
    requires h.start <= |h.timestamps| && PrunedTo(h, hits, k, now)
    requires (k in hits' <==> k in hits) && (k in hits ==> hits'[k] == hits[k])
    ensures PrunedTo(h, hits', k, now)
  {
    hide DropExpired;
  }

  lemma AllFresh(hits: map<string, Hit>, hits': map<string, Hit>, now: int)
    requires hits'.Keys <= hits.Keys && forall k :: k in hits ==> hits[k].start <= |hits[k].timestamps| && PrunedTo(hits[k], hits', k, now)
    ensures forall k :: k in hits' ==> Fresh(hits'[k], now)
  {
    forall k | k in hits' ensures Fresh(hits'[k], now) { assert k in hits; }
  }

  class MemoryStore {
    const maxKeys: int
    // the Map: its entries, and its keys in insertion order
    var hits: map<string, Hit>
    var order: seq<string>

    ghost const windowOf: string -> int
    ghost var log: map<string, seq<int>>
    ghost var clock: int

    ghost predicate Valid()
      reads this
    {
      && Distinct(order)
      && (forall k :: k in order <==> k in hits)
      && (forall k :: k in hits ==> hits[k].start <= |hits[k].timestamps|)
    }

    /** Nothing was evicted so far: every key is exact. */
    ghost predicate Exact()
      reads this
    {
      Valid() && AllExact(hits, log, windowOf, clock)
    }

    constructor (maxKeys: int, ghost windowOf: string -> int, ghost now: int)
      ensures Exact() && log == map[] && clock == now && hits == map[] && this.maxKeys == maxKeys && this.windowOf == windowOf
    {
      this.maxKeys := maxKeys;
      this.windowOf := windowOf;
      hits, order := map[], [];
      log, clock := map[], now;
    }

    /** Advances the start pointer past the expired entries. */
    static method Advance(data: Hit, bound: int) returns (data': Hit)
      requires data.start <= |data.timestamps|
      ensures data' == data.(start := data'.start) && data'.start <= |data'.timestamps|
      ensures Live(data') == DropExpired(Live(data), bound)
    {
      var start := data.start;
      while start < |data.timestamps| && data.timestamps[start] <= bound
        invariant data.start <= start <= |data.timestamps|
        invariant DropExpired(data.timestamps[start..], bound) == DropExpired(Live(data), bound)
      {
        assert data.timestamps[start..][1..] == data.timestamps[start + 1..];
        start := start + 1;
      }
      data' := data.(start := start);
    }

    /** Drops the dead prefix of the array once it is long and most of the array. */
    static method Compact(data: Hit) returns (data': Hit)
      requires data.start <= |data.timestamps|
      ensures data'.start <= |data'.timestamps| && data'.windowMs == data.windowMs
      ensures Live(data') == Live(data)
      ensures data'.start <= 1024 || data'.start * 2 <= |data'.timestamps|
    {
      data' := data;
      if data.start > 1024 && data.start * 2 > |data.timestamps| {
        data' := data.(timestamps := data.timestamps[data.start..], start := 0);
      }
    }

    method Prune(now: int)
      requires Valid()
      modifies this
      ensures Valid() && log == old(log) && hits.Keys <= old(hits.Keys)
      ensures forall k :: k in old(hits) ==> PrunedTo(old(hits)[k], hits, k, now)
      ensures old(Exact()) && old(clock) <= now ==> Exact() && clock == now && hits.Keys == LiveKeys(log, windowOf, now)
    {
      hide AllExact, DropExpired, LiveKeys, PrunedTo;
      ghost var exact := Exact() && clock <= now;
      if exact { AllExactLater(hits, log, windowOf, clock, now); }
      clock := now;
      var keys := order;
      for i := 0 to |keys|
        invariant Valid() && log == old(log) && clock == now
        invariant hits.Keys <= old(hits.Keys)
        invariant forall k :: k in keys[i..] ==> k in hits && hits[k] == old(hits)[k]
        invariant forall k :: k in keys[..i] ==> PrunedTo(old(hits)[k], hits, k, now)
        invariant exact ==> AllExact(hits, log, windowOf, now)
      {
        ghost var before := hits;
        Disjoint(keys, i);
        PruneKey(keys[i], now);
        forall k | k in keys[..i] ensures PrunedTo(old(hits)[k], hits, k, now) { PrunedStays(old(hits)[k], before, hits, k, now); }
      }
      assert keys[..|keys|] == keys;
      AllFresh(old(hits), hits, now);
      if exact { PrunedKeysAreLive(hits, log, windowOf, now); }
    }

    /** One key of the prune loop: forget what expired, drop the key when nothing is left. */
    method PruneKey(key: string, now: int)
      requires Valid() && key in hits
      modifies this`hits, this`order
      ensures Valid() && forall k :: k != key ==> (k in hits <==> k in old(hits)) && (k in hits ==> hits[k] == old(hits)[k])
      ensures PrunedTo(old(hits)[key], hits, key, now)
      ensures AllExact(old(hits), log, windowOf, now) ==> AllExact(hits, log, windowOf, now)
    {
      hide AllExact, DropExpired;
      ghost var before := hits;
      var data := Advance(hits[key], now - hits[key].windowMs);
      DropExpiredHead(Live(hits[key]), now - hits[key].windowMs);
      if data.start >= |data.timestamps| {
        WithoutDistinct(order, key);
        hits, order := hits - {key}, Without(order, key);
      } else {
        data := Compact(data);
        assert data.timestamps[data.start] == Live(data)[0];
        hits := hits[key := data];
      }
      if AllExact(before, log, windowOf, now) { AllExactPruned(before, hits, log, windowOf, now, key); }
    }

    /**
      One request: `now` and, when the map is full, `later` are two readings of the clock. As long as
      no more keys are live than the map may hold, none is evicted and the reading is that of the log.
     */
    method Increment(key: string, windowMs: int, now: int, later: int) returns (r: Reading)
      requires Valid() && windowMs == windowOf(key)
      modifies this
      ensures Valid() && log == old(log)[key := TimesOf(old(log), key) + [now]]
      ensures |hits| <= maxKeys || hits == map[]
      ensures old(Exact()) && old(clock) <= now && |old(hits.Keys) + {key}| <= maxKeys ==>
        && Exact() && clock == now
        && r == ReadingOf(LiveAfter(TimesOf(log, key), windowMs), now, windowMs)
      ensures (old(Exact()) && old(clock) <= now <= later
               && |old(hits.Keys) + {key}| > maxKeys && |LiveKeys(log, windowOf, later)| <= maxKeys) ==>
        && Exact() && clock == later
        && r == ReadingOf(DropExpired(LiveAfter(TimesOf(log, key), windowMs), later - windowMs), now, windowMs)
        && (later == now && windowMs > 0 ==> r == ReadingOf(LiveAfter(TimesOf(log, key), windowMs), now, windowMs))
    {
      hide AllExact, DropExpired, LiveAfter, LiveKeys, ReadingOf, CeilDiv, Distinct;
      var data := Record(key, windowMs, now);
      assert |hits| == |hits.Keys|;
      if |hits| > maxKeys {
        RequestIsLive(hits, log, windowOf, now, key);
        data := MakeRoom(key, data, later);
      }
      var count := |data.timestamps| - data.start;
      var oldest := if data.start < |data.timestamps| then data.timestamps[data.start] else now;
      r := Reading(count, CeilDiv(oldest + windowMs, 1000));
      ReadingIs(data, now, windowMs);
    }

    /** Slides the window of the key over the new request. */
    method Record(key: string, windowMs: int, now: int) returns (data: Hit)
      requires Valid() && windowMs == windowOf(key)
      modifies this
      ensures Valid() && log == old(log)[key := TimesOf(old(log), key) + [now]] && clock == now
      ensures hits.Keys == old(hits.Keys) + {key} && hits[key] == data
      ensures old(Exact()) && old(clock) <= now ==>
        Exact() && Live(data) == LiveAfter(TimesOf(log, key), windowMs) && data.windowMs == windowMs
    {
      hide AllExact, DropExpired, LiveAfter;
      ghost var exact := Exact() && clock <= now;
      if exact { AllExactLater(hits, log, windowOf, clock, now); }
      data := if key in hits then hits[key] else Hit([], 0, windowMs);
      if exact { WindowKnown(hits, log, windowOf, now, key); }
      data := Advance(data, now - windowMs);
      ghost var kept := Live(data);
      data := data.(timestamps := data.timestamps + [now]);
      assert Live(data) == kept + [now];
      data := Compact(data);
      if exact { AllExactSlid(hits, data, log, windowOf, now, key); }
      if key !in hits { order := order + [key]; }
      hits := hits[key := data];
      log, clock := log[key := TimesOf(log, key) + [now]], now;
    }

    /** Over the cap: prune, then evict the keys inserted first; `data` follows its entry. */
    method MakeRoom(key: string, data: Hit, later: int) returns (data': Hit)
      requires Valid() && key in hits && hits[key] == data
      modifies this
      ensures Valid() && log == old(log)
      ensures |hits| <= maxKeys || hits == map[]
      ensures data'.start <= |data'.timestamps| && Live(data') == DropExpired(Live(data), later - data.windowMs)
      ensures old(Exact()) && old(clock) <= later && |LiveKeys(log, windowOf, later)| <= maxKeys ==> Exact() && clock == later
    {
      hide AllExact, DropExpired, LiveKeys;
      Prune(later);
      assert PrunedTo(data, hits, key, later);
      // the entry may have been advanced, or removed with every entry expired
      data' := if key in hits then hits[key] else data.(start := |data.timestamps|);
      assert |hits| == |hits.Keys|;
      hide PrunedTo;
      Evict();
    }

    /** Evicts the keys inserted first until the rest fits. */
    method Evict()
      requires Valid()
      modifies this`hits, this`order
      ensures Valid() && (|hits| <= maxKeys || hits == map[])
      ensures |old(hits)| <= maxKeys ==> hits == old(hits)
    {
      while |hits| > maxKeys && order != []
        invariant Valid()
        invariant |old(hits)| <= maxKeys ==> hits == old(hits)
        decreases |order|
      {
        var oldest := order[0];
        hits, order := hits - {oldest}, order[1..];
      }
      assert order == [] ==> hits.Keys == {};
    }
  }
}
