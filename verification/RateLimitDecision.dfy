/** The limiter's decision, said of the request times alone. */
module RateLimitDecision {
  import opened OptionType
  import opened RateLimitSpec

  /** The requests up to the i-th that are less than one window older than it; it counts itself for any window. */
  function Counted(times: seq<int>, window: int, i: nat): set<int>
    requires i < |times|
  {
    set j | 0 <= j <= i && (j == i || times[j] > times[i] - window)
  }

  /** `r` is the first full second at or after this many milliseconds. */
  predicate FirstSecond(r: int, ms: int) {
    1000 * (r - 1) < ms <= 1000 * r
  }

  lemma CeilingIsFirstSecond(ms: int)
    ensures FirstSecond(CeilDiv(ms, 1000), ms)
  {}

  /** The live list is the times counted, in order. */
  lemma LiveIsCounted(times: seq<int>, window: int, i: nat) returns (k: nat)
    requires Sorted(times) && i < |times|
    ensures k <= i && LiveAfter(times[..i + 1], window) == times[k..i + 1]
    ensures forall j :: j in Counted(times, window, i) <==> k <= j <= i
  {
    var upto, bound := times[..i + 1], times[i] - window;
    LiveIsWindow(upto, window);
    assert upto[..i] == times[..i];
    k := DropExpiredSuffix(times[..i], bound);
    assert times[..i][k..] + [times[i]] == times[k..i + 1];
    assert forall j :: 0 <= j < i ==> times[..i][j] == times[j];
  }

  lemma {:induction false} SizeOfRange(s: set<int>, k: int, n: int)
    requires k <= n && forall j :: j in s <==> k <= j < n
    ensures |s| == n - k
    decreases n - k
  {
    if k < n {
      SizeOfRange(s - {n - 1}, k, n - 1);
    } else {
      assert forall j :: j !in s;
    }
  }

  /**
    What is decided about the i-th request: it passes exactly when no more than `max` requests count for
    it; the number remaining, the second at which the oldest of them leaves the window, and, when it is
    refused, a full window to wait are announced.
   */
  lemma DecisionMeans(times: seq<int>, window: int, max: int, i: nat)
    requires Sorted(times) && i < |times|
    ensures var counted := Counted(times, window, i);
      var d := Decide(max, window, Some(ReadingOf(LiveAfter(times[..i + 1], window), times[i], window)));
      && (Allowed(times, window, max, i) <==> |counted| <= max)
      && (d.Pass? <==> |counted| <= max) && (d.TooManyRequests? <==> |counted| > max)
      && d.limit == max && d.remaining == (if max > |counted| then max - |counted| else 0)
      && (exists oldest :: oldest in counted && (forall j :: j in counted ==> oldest <= j && times[oldest] <= times[j])
            && FirstSecond(d.reset, times[oldest] + window))
      && (d.TooManyRequests? ==> FirstSecond(d.retryAfter, window))
  {
    var k := LiveIsCounted(times, window, i);
    var counted := Counted(times, window, i);
    SizeOfRange(counted, k, i + 1);
    CeilingIsFirstSecond(times[k] + window);
    CeilingIsFirstSecond(window);
    assert k in counted && times[k..i + 1][0] == times[k];
    hide CeilDiv, LiveAfter, Counted;
  }

  /** Without a reading there is no decision: the store failed. */
  lemma NoReadingNoDecision(max: int, window: int)
    ensures Decide(max, window, None) == Unavailable
  {}

  /** Requests that pass, among those i..j-1. */
  function Passed(times: seq<int>, window: int, max: int, i: nat, j: nat): set<int>
    requires i <= j <= |times|
  {
    set k | i <= k < j && |Counted(times, window, k)| <= max
  }

  lemma {:induction false} PassedCount(times: seq<int>, window: int, max: int, i: nat, j: nat)
    requires Sorted(times) && i <= j <= |times|
    ensures |Passed(times, window, max, i, j)| == AllowedCount(times, window, max, i, j)
    decreases j
  {
    if i < j {
      PassedCount(times, window, max, i, j - 1);
      DecisionMeans(times, window, max, j - 1);
      hide Counted, Allowed, Decide, LiveAfter;
      var before, now := Passed(times, window, max, i, j - 1), Passed(times, window, max, i, j);
      assert now == before + (if |Counted(times, window, j - 1)| <= max then {j - 1} else {});
    } else {
      assert Passed(times, window, max, i, j) == {};
    }
  }

  /** No interval shorter than the window has more than `max` requests that pass. */
  lemma NoMoreThanMaxPass(times: seq<int>, window: int, max: nat, i: nat, j: nat)
    requires Sorted(times) && i < j <= |times| && times[j - 1] - times[i] < window
    ensures |Passed(times, window, max, i, j)| <= max
  {
    AtMostMaxPerWindow(times, window, max, i, j);
    PassedCount(times, window, max, i, j);
  }

  /** The first `max` requests of a key, and any that has fewer than `max` others in its window, pass. */
  lemma UpToMaxAllPass(times: seq<int>, window: int, max: nat, i: nat)
    requires Sorted(times) && i < |times|
    requires i < max || (i >= max && times[i - max] <= times[i] - window && max > 0)
    ensures Allowed(times, window, max, i)
  {
    DecisionMeans(times, window, max, i);
    var k := LiveIsCounted(times, window, i);
    SizeOfRange(Counted(times, window, i), k, i + 1);
    if i >= max { assert i - max !in Counted(times, window, i); }
  }
}
