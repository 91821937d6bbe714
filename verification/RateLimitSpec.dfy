/**
  The sliding window: what both stores count, and what the count is for. Times are epoch
  milliseconds; one key is one list of request times.
 */
module RateLimitSpec {
  import opened OptionType

  predicate Sorted(s: seq<int>) {
    forall i, j :: 0 <= i < j < |s| ==> s[i] <= s[j]
  }

  /** The list without its leading entries at or before `bound`. */
  function DropExpired(s: seq<int>, bound: int): (r: seq<int>) {
    if s == [] || s[0] > bound then s else DropExpired(s[1..], bound)
  }

  function CeilDiv(a: int, b: int): int
    requires b > 0
  {
    (a + b - 1) / b
  }

  /** What `increment` answers for the live entries of a key, the new one included. */
  datatype Reading = Reading(count: nat, resetTime: int)

  function ReadingOf(live: seq<int>, now: int, window: int): Reading {
    Reading(|live|, CeilDiv((if live == [] then now else live[0]) + window, 1000))
  }

  /** The live entries after one more request. */
  function Slide(live: seq<int>, now: int, window: int): seq<int> {
    DropExpired(live, now - window) + [now]
  }

  /** The live entries after requests at these times, on a key that starts empty. */
  function LiveAfter(times: seq<int>, window: int): seq<int> {
    if times == [] then [] else Slide(LiveAfter(times[..|times| - 1], window), times[|times| - 1], window)
  }

  // ---- the window, counted from the request log -------------------------------------------------

  /** How many of the requests came after `bound`. */
  function CountAfter(times: seq<int>, bound: int): nat {
    if times == [] then 0
    else CountAfter(times[..|times| - 1], bound) + if times[|times| - 1] > bound then 1 else 0
  }

  lemma DropExpiredSuffix(s: seq<int>, bound: int) returns (k: nat)
    requires Sorted(s)
    ensures k <= |s| && DropExpired(s, bound) == s[k..]
    ensures forall i :: 0 <= i < |s| ==> (i >= k <==> s[i] > bound)
  {
    if s == [] || s[0] > bound { k := 0; } else {
      var j := DropExpiredSuffix(s[1..], bound);
      k := j + 1;
      assert s[1..][j..] == s[k..];
      forall i | 0 <= i < |s| ensures i >= k <==> s[i] > bound { if i > 0 { assert s[i] == s[1..][i - 1]; } }
    }
  }

  lemma {:induction false} CountSuffix(s: seq<int>, bound: int, k: nat)
    requires k <= |s| && forall i :: 0 <= i < |s| ==> (i >= k <==> s[i] > bound)
    ensures CountAfter(s, bound) == |s| - k
  {
    if s != [] {
      var t := s[..|s| - 1];
      if k == |s| { CountSuffix(t, bound, k - 1); } else { CountSuffix(t, bound, k); }
    }
  }

  /** Dropping twice is dropping once, when the bound only grows. */
  lemma {:induction false} DropDrop(s: seq<int>, t: seq<int>, a: int, b: int)
    requires a <= b && Sorted(s + t)
    ensures DropExpired(DropExpired(s, a) + t, b) == DropExpired(s + t, b)
  {
    if s == [] || s[0] > a {
    } else {
      assert (s + t)[1..] == s[1..] + t;
      DropDrop(s[1..], t, a, b);
    }
  }

  /** The live entries are the requests of the current window and nothing else. */
  lemma {:induction false} LiveIsWindow(times: seq<int>, window: int)
    requires times != [] && Sorted(times)
    ensures var now := times[|times| - 1];
      LiveAfter(times, window) == DropExpired(times[..|times| - 1], now - window) + [now]
  {
    var n := |times| - 1;
    var before, now := times[..n], times[n];
    if before != [] {
      LiveIsWindow(before, window);
      var m := |before| - 1;
      assert before[..m] + [before[m]] == before;
      DropDrop(before[..m], [before[m]], before[m] - window, now - window);
    }
  }

  /** The count of a reading is the number of requests less than one window old. */
  lemma CountIsWindowCount(times: seq<int>, window: int)
    requires times != [] && Sorted(times) && window > 0
    ensures |LiveAfter(times, window)| == CountAfter(times, times[|times| - 1] - window)
    ensures LiveAfter(times, window)[0] > times[|times| - 1] - window
    ensures LiveAfter(times, window)[0] in times
  {
    var n := |times| - 1;
    LiveIsWindow(times, window);
    var k := DropExpiredSuffix(times[..n], times[n] - window);
    CountSuffix(times[..n], times[n] - window, k);
    assert LiveAfter(times, window) == times[k..n] + [times[n]];
  }

  // ---- the decision -------------------------------------------------------------------------------

  datatype Decision =
    | Pass(limit: int, remaining: int, reset: int)
    | TooManyRequests(limit: int, remaining: int, reset: int, retryAfter: int)
    | Unavailable

  /** What the limiter does with the store's reading; no reading means the store failed. */
  function Decide(max: int, window: int, reading: Option<Reading>): Decision {
    if reading.None? then Unavailable
    else
      var r := reading.value;
      var remaining := if max - r.count > 0 then max - r.count else 0;
      if r.count > max then TooManyRequests(max, remaining, r.resetTime, CeilDiv(window, 1000))
      else Pass(max, remaining, r.resetTime)
  }

  /** Request `i` of the log passed the limiter. */
  predicate Allowed(times: seq<int>, window: int, max: int, i: nat)
    requires i < |times|
  {
    var live := LiveAfter(times[..i + 1], window);
    Decide(max, window, Some(ReadingOf(live, times[i], window))).Pass?
  }

  /** How many of the requests i..j-1 were allowed. */
  function AllowedCount(times: seq<int>, window: int, max: int, i: nat, j: nat): nat
    requires i <= j <= |times|
  {
    if i == j then 0
    else AllowedCount(times, window, max, i, j - 1) + if Allowed(times, window, max, j - 1) then 1 else 0
  }

  lemma {:induction false} AllowedCountBound(times: seq<int>, window: int, max: int, i: nat, j: nat)
    requires i <= j <= |times|
    ensures AllowedCount(times, window, max, i, j) <= j - i
  {
    if i < j { AllowedCountBound(times, window, max, i, j - 1); }
  }

  /** Requests younger than one window, seen from the last of them, are all still counted. */
  lemma LiveCovers(times: seq<int>, window: int, i: nat, k: nat)
    requires Sorted(times) && i <= k < |times| && times[k] - times[i] < window
    ensures |LiveAfter(times[..k + 1], window)| >= k + 1 - i
  {
    LiveIsWindow(times[..k + 1], window);
    assert times[..k + 1][..k] == times[..k];
    var d := DropExpiredSuffix(times[..k], times[k] - window);
    if i < k { assert times[..k][i] == times[i]; }
  }

  /**
    The point of the limiter: among requests that all lie within less than one window of each
    other, at most `max` were allowed.
   */
  lemma {:induction false} AtMostMaxPerWindow(times: seq<int>, window: int, max: nat, i: nat, j: nat)
    requires Sorted(times) && i < j <= |times| && times[j - 1] - times[i] < window
    ensures AllowedCount(times, window, max, i, j) <= max
    decreases j
  {
    if Allowed(times, window, max, j - 1) {
      LiveCovers(times, window, i, j - 1);
      AllowedCountBound(times, window, max, i, j);
    } else if i < j - 1 {
      AtMostMaxPerWindow(times, window, max, i, j - 1);
    }
  }
}
