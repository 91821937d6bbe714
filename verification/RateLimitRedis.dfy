/** The sliding-window script on a Redis sorted set, and its agreement with the live list. */
module RateLimitRedis {
  import opened OptionType
  import opened RateLimitSpec

  type Member = nat

  /** One key in Redis: the sorted set and, once PEXPIRE was called, its deadline. */
  datatype Key = Key(scores: map<Member, int>, expireAt: Option<int>)

  ghost predicate IsMin(scores: map<Member, int>, v: int) {
    (exists m :: m in scores && scores[m] == v) && forall m :: m in scores ==> v <= scores[m]
  }

  /** What the script may answer: ZCARD, and the reset time from ZRANGE 0 0 WITHSCORES if there is one. */
  ghost predicate Answer(scores: map<Member, int>, now: int, window: int, r: Reading) {
    && r.count == |scores|
    && if scores == map[] then r.resetTime == CeilDiv(now + window, 1000)
       else exists v :: IsMin(scores, v) && r.resetTime == CeilDiv(v + window, 1000)
  }

  /** ZREMRANGEBYSCORE -inf bound */
  ghost function Remaining(scores: map<Member, int>, bound: int): map<Member, int> {
    map m | m in scores && scores[m] > bound :: scores[m]
  }

  /**
    One run of the script. The server drops the key at some moment once its deadline has come;
    PEXPIRE with a non-positive time deletes the key on the spot.
   */
  ghost predicate Script(k: Key, k': Key, dropped: bool, now: int, window: int, member: Member, r: Reading) {
    var found := if dropped then map[] else k.scores;
    var added := Remaining(found, now - window)[member := now];
    && (dropped ==> k.expireAt.Some? && now >= k.expireAt.value)
    && (if window > 0 then k' == Key(added, Some(now + window)) else k' == Key(map[], None))
    && Answer(k'.scores, now, window, r)
  }

  // ---- the sorted set mirrors the live list -----------------------------------------------------

  /** Members `ms`, in this order, carry exactly the scores `live`. */
  ghost predicate Mirrors(scores: map<Member, int>, ms: seq<Member>, live: seq<int>) {
    && |ms| == |live|
    && (forall i, j :: 0 <= i < j < |ms| ==> ms[i] != ms[j])
    && (forall m :: m in scores <==> m in ms)
    && (forall i :: 0 <= i < |ms| ==> ms[i] in scores && scores[ms[i]] == live[i])
  }

  lemma MirrorSize(scores: map<Member, int>, ms: seq<Member>, live: seq<int>)
    requires Mirrors(scores, ms, live)
    ensures |scores| == |live|
  {
    SizeOfDistinct(ms, scores.Keys);
    assert |scores| == |scores.Keys|;
  }

  lemma {:induction false} SizeOfDistinct(ms: seq<Member>, keys: set<Member>)
    requires forall i, j :: 0 <= i < j < |ms| ==> ms[i] != ms[j]
    requires forall m :: m in keys <==> m in ms
    ensures |keys| == |ms|
  {
    if ms == [] {
      assert keys == {};
    } else {
      var n := |ms| - 1;
      assert ms == ms[..n] + [ms[n]];
      SizeOfDistinct(ms[..n], keys - {ms[n]});
      assert keys == (keys - {ms[n]}) + {ms[n]};
    }
  }

  /** Removing the scores up to a bound mirrors dropping the leading entries. */
  lemma MirrorDrop(scores: map<Member, int>, ms: seq<Member>, live: seq<int>, bound: int) returns (ms': seq<Member>)
    requires Mirrors(scores, ms, live) && Sorted(live)
    ensures Mirrors(Remaining(scores, bound), ms', DropExpired(live, bound))
    ensures forall m :: m in ms' ==> m in ms
  {
    var k := DropExpiredSuffix(live, bound);
    ms' := ms[k..];
    var kept := Remaining(scores, bound);
    forall m ensures m in kept <==> m in ms' {
      if m in kept {
        var i :| 0 <= i < |ms| && ms[i] == m;
        assert live[i] > bound;
        assert ms[i] == ms'[i - k];
      }
    }
    forall i | 0 <= i < |ms'| ensures ms'[i] in kept && kept[ms'[i]] == DropExpired(live, bound)[i] {
      assert ms'[i] == ms[i + k] && live[i + k] > bound;
    }
  }

  lemma MirrorAdd(scores: map<Member, int>, ms: seq<Member>, live: seq<int>, member: Member, now: int)
    requires Mirrors(scores, ms, live) && member !in ms
    ensures Mirrors(scores[member := now], ms + [member], live + [now])
  {}

  lemma MirrorReading(scores: map<Member, int>, ms: seq<Member>, live: seq<int>, now: int, window: int, r: Reading)
    requires Mirrors(scores, ms, live) && Sorted(live) && live != []
    requires Answer(scores, now, window, r)
    ensures r == ReadingOf(live, now, window)
  {
    MirrorSize(scores, ms, live);
    assert ms[0] in scores;
    var v :| IsMin(scores, v) && r.resetTime == CeilDiv(v + window, 1000);
    assert v <= scores[ms[0]];
    var m :| m in scores && scores[m] == v;
    var i :| 0 <= i < |ms| && ms[i] == m;
    assert live[0] <= live[i];
  }

  /** Between two runs of the script the key mirrors the live list, or it expired with nothing live left. */
  ghost predicate Tracks(k: Key, ms: seq<Member>, live: seq<int>, last: int, window: int) {
    && Mirrors(k.scores, ms, live) && Sorted(live)
    && (forall i :: 0 <= i < |live| ==> live[i] <= last)
    && (k.expireAt.Some? ==> k.expireAt.value == last + window)
  }

  lemma {:induction false} AllExpired(s: seq<int>, bound: int)
    requires forall i :: 0 <= i < |s| ==> s[i] <= bound
    ensures DropExpired(s, bound) == []
  {
    if s != [] { AllExpired(s[1..], bound); }
  }

  lemma SlideSorted(live: seq<int>, now: int, window: int)
    requires Sorted(live) && forall i :: 0 <= i < |live| ==> live[i] <= now
    ensures Sorted(Slide(live, now, window)) && forall i :: 0 <= i < |Slide(live, now, window)| ==> Slide(live, now, window)[i] <= now
  {
    var k := DropExpiredSuffix(live, now - window);
  }

  lemma NothingLive(live: seq<int>, last: int, now: int, window: int)
    requires (forall i :: 0 <= i < |live| ==> live[i] <= last) && last + window <= now
    ensures Slide(live, now, window) == Slide([], now, window)
  {
    AllExpired(live, now - window);
  }

  /** One script run, PEXPIRE and a possible expiry included, answers as the live list does. */
  lemma ScriptStep(k: Key, k': Key, ms: seq<Member>, live: seq<int>, last: int, dropped: bool,
                   now: int, window: int, member: Member, r: Reading) returns (ms': seq<Member>)
    requires window > 0 && last <= now && Tracks(k, ms, live, last, window)
    requires Script(k, k', dropped, now, window, member, r) && member !in ms
    ensures Tracks(k', ms', Slide(live, now, window), now, window)
    ensures r == ReadingOf(Slide(live, now, window), now, window)
    ensures forall m :: m in ms' ==> m in ms || m == member
  {
    var found := if dropped then map[] else k.scores;
    var fms, flive := if dropped then [] else ms, if dropped then [] else live;
    if dropped { NothingLive(live, last, now, window); }
    hide Answer, DropExpired, ReadingOf, Remaining, Slide;
    ms' := FoundStep(k', found, fms, flive, now, window, member, r);
  }

  lemma FoundStep(k': Key, found: map<Member, int>, ms: seq<Member>, live: seq<int>, now: int, window: int, member: Member, r: Reading)
    returns (ms': seq<Member>)
    requires window > 0 && Mirrors(found, ms, live) && Sorted(live) && member !in ms
    requires forall i :: 0 <= i < |live| ==> live[i] <= now
    requires k' == Key(Remaining(found, now - window)[member := now], Some(now + window))
    requires Answer(k'.scores, now, window, r)
    ensures Tracks(k', ms', Slide(live, now, window), now, window)
    ensures r == ReadingOf(Slide(live, now, window), now, window)
    ensures forall m :: m in ms' ==> m in ms || m == member
  {
    var live' := Slide(live, now, window);
    SlideSorted(live, now, window);
    assert live' == DropExpired(live, now - window) + [now];
    hide Answer, DropExpired, Mirrors, Sorted, Slide, ReadingOf, Remaining;
    var kept := MirrorDrop(found, ms, live, now - window);
    MirrorAdd(Remaining(found, now - window), kept, DropExpired(live, now - window), member, now);
    ms' := kept + [member];
    MirrorReading(k'.scores, ms', live', now, window, r);
  }

  // ---- whole runs -----------------------------------------------------------------------------------

  /** A run of the script on one key: request i at times[i] with its own member. */
  ghost predicate RedisRun(keys: seq<Key>, times: seq<int>, members: seq<Member>, dropped: seq<bool>,
                           window: int, answers: seq<Reading>) {
    && |keys| == |times| + 1 && |members| == |times| && |dropped| == |times| && |answers| == |times|
    && keys[0] == Key(map[], None)
    && (forall i, j :: 0 <= i < j < |members| ==> members[i] != members[j])
    && forall i :: 0 <= i < |times| ==>
         Script(keys[i], keys[i + 1], dropped[i], times[i], window, members[i], answers[i])
  }

  /** What the in-memory store answers to the same requests. */
  function MemoryAnswer(times: seq<int>, window: int, i: nat): Reading
    requires i < |times|
  {
    ReadingOf(LiveAfter(times[..i + 1], window), times[i], window)
  }

  /** The key before request `n`: fresh, or in step with the requests so far. */
  ghost predicate InStep(k: Key, ms: seq<Member>, times: seq<int>, window: int, n: nat)
    requires n <= |times|
  {
    if n == 0 then k == Key(map[], None) && ms == []
    else Tracks(k, ms, LiveAfter(times[..n], window), times[n - 1], window)
  }

  lemma InStepNext(k: Key, k': Key, ms: seq<Member>, times: seq<int>, window: int, i: nat,
                   dropped: bool, member: Member, r: Reading) returns (ms': seq<Member>)
    requires window > 0 && i < |times| && (i > 0 ==> times[i - 1] <= times[i]) && InStep(k, ms, times, window, i)
    requires Script(k, k', dropped, times[i], window, member, r) && member !in ms
    ensures InStep(k', ms', times, window, i + 1) && r == MemoryAnswer(times, window, i)
    ensures forall m :: m in ms' ==> m in ms || m == member
  {
    LiveNext(times, window, i);
    var last := if i == 0 then times[0] else times[i - 1];
    assert Tracks(k, ms, LiveAfter(times[..i], window), last, window);
    hide Script, Tracks, LiveAfter, Slide, ReadingOf, MemoryAnswer;
    ms' := ScriptStep(k, k', ms, LiveAfter(times[..i], window), last, dropped, times[i], window, member, r);
  }

  lemma {:induction false} RedisTracks(keys: seq<Key>, times: seq<int>, members: seq<Member>, dropped: seq<bool>,
                                       window: int, answers: seq<Reading>, n: nat) returns (ms: seq<Member>)
    requires window > 0 && Sorted(times) && RedisRun(keys, times, members, dropped, window, answers) && n <= |times|
    ensures InStep(keys[n], ms, times, window, n)
    ensures forall m :: m in ms ==> m in members[..n]
    ensures forall i :: 0 <= i < n ==> answers[i] == MemoryAnswer(times, window, i)
  {
    ms := [];
    if n > 0 {
      RunStep(keys, times, members, dropped, window, answers, n - 1);
      hide *;
      var before := RedisTracks(keys, times, members, dropped, window, answers, n - 1);
      ms := InStepNext(keys[n - 1], keys[n], before, times, window, n - 1, dropped[n - 1], members[n - 1], answers[n - 1]);
      assert members[..n] == members[..n - 1] + [members[n - 1]];
    }
  }

  lemma LiveNext(times: seq<int>, window: int, i: nat)
    requires i < |times|
    ensures LiveAfter(times[..i + 1], window) == Slide(LiveAfter(times[..i], window), times[i], window)
    ensures MemoryAnswer(times, window, i) == ReadingOf(Slide(LiveAfter(times[..i], window), times[i], window), times[i], window)
    ensures LiveAfter(times[..0], window) == []
  {
    assert times[..i + 1][..i] == times[..i];
  }

  /** Step `i` of a run; its member is new. */
  lemma RunStep(keys: seq<Key>, times: seq<int>, members: seq<Member>, dropped: seq<bool>,
                window: int, answers: seq<Reading>, i: nat)
    requires RedisRun(keys, times, members, dropped, window, answers) && i < |times| && Sorted(times)
    ensures |keys| == |times| + 1 && |members| == |times| && |dropped| == |times| && |answers| == |times|
    ensures Script(keys[i], keys[i + 1], dropped[i], times[i], window, members[i], answers[i])
    ensures members[i] !in members[..i] && (i > 0 ==> times[i - 1] <= times[i])
  {
    hide Script;
  }

  /** With a positive window the two stores give the same counts and reset times, request by request. */
  lemma StoresAgree(keys: seq<Key>, times: seq<int>, members: seq<Member>, dropped: seq<bool>,
                    window: int, answers: seq<Reading>, i: nat)
    requires window > 0 && Sorted(times) && RedisRun(keys, times, members, dropped, window, answers) && i < |times|
    ensures answers[i] == MemoryAnswer(times, window, i)
  {
    var ms := RedisTracks(keys, times, members, dropped, window, answers, i + 1);
  }

  /**
    The window must be positive: for any other window PEXPIRE empties the key before ZCARD, so the
    script counts nothing where the memory store counts at least the request itself.
   */
  lemma StoresAgreeExactlyForPositiveWindows(keys: seq<Key>, times: seq<int>, members: seq<Member>, dropped: seq<bool>,
                                             window: int, answers: seq<Reading>)
    requires times != [] && Sorted(times) && RedisRun(keys, times, members, dropped, window, answers)
    ensures (forall i :: 0 <= i < |times| ==> answers[i] == MemoryAnswer(times, window, i)) <==> window > 0
  {
    if window > 0 {
      var ms := RedisTracks(keys, times, members, dropped, window, answers, |times|);
    } else {
      assert Script(keys[0], keys[1], dropped[0], times[0], window, members[0], answers[0]);
      assert answers[0].count == 0 && MemoryAnswer(times, window, 0).count > 0;
    }
  }

  // ---- one run of the script, number by number --------------------------------------------------------

  /** `r` is the first full second at or after this many milliseconds. */
  predicate FirstSecond(r: int, ms: int) { 1000 * (r - 1) < ms <= 1000 * r }

  /**
    With a positive window the script counts the members less than one window old, the new one among
    them, and names the second at which the oldest of them leaves; with any other window PEXPIRE deletes
    the key first, so that it counts none and names the second of the window's own end.
   */
  lemma ScriptMeans(k: Key, k': Key, dropped: bool, now: int, window: int, member: Member, r: Reading)
    requires Script(k, k', dropped, now, window, member, r)
    ensures window <= 0 ==> k' == Key(map[], None) && r.count == 0 && FirstSecond(r.resetTime, now + window)
    ensures window > 0 ==>
      && k'.expireAt == Some(now + window) && member in k'.scores && k'.scores[member] == now
      && (forall m :: m != member ==> (m in k'.scores <==> !dropped && m in k.scores && k.scores[m] + window > now))
      && (forall m :: m != member && m in k'.scores ==> k'.scores[m] == k.scores[m])
      && r.count == |k'.scores.Keys|
      && exists m :: m in k'.scores && (forall n :: n in k'.scores ==> k'.scores[m] <= k'.scores[n]) && FirstSecond(r.resetTime, k'.scores[m] + window)
  {
    assert |k'.scores| == |k'.scores.Keys|;
    if window > 0 {
      assert k'.scores != map[] by { assert member in k'.scores; }
      var v :| IsMin(k'.scores, v) && r.resetTime == CeilDiv(v + window, 1000);
      var m :| m in k'.scores && k'.scores[m] == v;
      assert FirstSecond(r.resetTime, k'.scores[m] + window);
    }
  }

  /** From its deadline on the server may have dropped the key, and the script then starts from nothing. */
  lemma MayBeDropped(k: Key, now: int, window: int, member: Member) returns (k': Key, r: Reading)
    requires k.expireAt.Some? && k.expireAt.value <= now && window > 0
    ensures Script(k, k', true, now, window, member, r) && k'.scores == map[member := now] && r.count == 1
  {
    var scores: map<Member, int> := map[member := now];
    assert Remaining(map[], now - window) == map[];
    k', r := Key(scores, Some(now + window)), Reading(1, CeilDiv(now + window, 1000));
    assert scores.Keys == {member};
    assert |scores| == |scores.Keys|;
    assert IsMin(scores, now) by { assert scores[member] == now; }
  }
}
