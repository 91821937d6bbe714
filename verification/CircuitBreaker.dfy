/** The circuit breaker, with calls in flight across its state changes: a call begins at one moment and ends at another. */
module CircuitBreaker {
  datatype Mode = Closed | Open | HalfOpen

  datatype Config = Config(failureThreshold: nat, cooldownMs: int, maxProbes: nat)

  datatype State = State(mode: Mode, failures: nat, lastStateChange: int, probes: nat)

  datatype Kind = Begin | Success | Failure

  /** A call asks to begin, or a call that was let through ends, at some time. */
  datatype Event = Event(kind: Kind, at: int)

  function MoveTo(s: State, mode: Mode, now: int): State {
    match mode
    case Closed => s.(mode := Closed, lastStateChange := now, failures := 0)
    case HalfOpen => s.(mode := HalfOpen, lastStateChange := now, probes := 0)
    case Open => s.(mode := Open, lastStateChange := now)
  }

  function Next(cfg: Config, s: State, e: Event): State {
    match e.kind
    case Begin =>
      if s.mode.Open? && e.at - s.lastStateChange > cfg.cooldownMs then MoveTo(s, HalfOpen, e.at) else s
    case Success =>
      if s.mode.HalfOpen? then
        var t := s.(probes := s.probes + 1);
        if t.probes >= cfg.maxProbes then MoveTo(t, Closed, e.at) else t
      else if s.mode.Closed? then s.(failures := 0)
      else s
    case Failure =>
      var t := s.(failures := s.failures + 1);
      if s.mode.HalfOpen? || t.failures >= cfg.failureThreshold then MoveTo(t, Open, e.at) else t
  }

  /** A call is let through unless the breaker is still open once it has looked at the clock. */
  predicate Admitted(cfg: Config, s: State, e: Event) {
    e.kind.Begin? && !Next(cfg, s, e).mode.Open?
  }

  /** A run from the start, under a clock that does not go back. */
  ghost predicate Run(cfg: Config, states: seq<State>, events: seq<Event>) {
    && |states| == |events| + 1
    && states[0].mode.Closed? && states[0].failures == 0
    && (forall i, j :: 0 <= i < j < |events| ==> events[i].at <= events[j].at)
    && forall i {:trigger events[i]} :: 0 <= i < |events| ==> states[i + 1] == Next(cfg, states[i], events[i])
  }

  function Count(events: seq<Event>, kind: Kind): nat {
    if events == [] then 0
    else Count(events[..|events| - 1], kind) + if events[|events| - 1].kind == kind then 1 else 0
  }

  lemma StepAt(cfg: Config, states: seq<State>, events: seq<Event>, i: nat)
    requires Run(cfg, states, events) && i < |events|
    ensures states[i + 1] == Next(cfg, states[i], events[i])
  {
    var e := events[i];
  }

  lemma CountNext(events: seq<Event>, m: nat, n: nat, kind: Kind)
    requires m <= n < |events|
    ensures Count(events[m..n + 1], kind) == Count(events[m..n], kind) + if events[n].kind == kind then 1 else 0
  {
    assert events[m..n + 1][..n - m] == events[m..n];
  }

  lemma CountNone(events: seq<Event>, n: nat, kind: Kind)
    requires n <= |events|
    ensures Count(events[n..n], kind) == 0
  {}

  // ---- the failure count ----------------------------------------------------------------------------------

  /** Between `m` and `n` the breaker was closed throughout and saw no success; `m` is the start or just after a success. */
  ghost predicate ClosedSince(states: seq<State>, events: seq<Event>, m: nat, n: nat) {
    && m <= n <= |events| < |states|
    && (m == 0 || events[m - 1].kind.Success?)
    && (forall i :: m <= i <= n ==> states[i].mode.Closed?)
    && Count(events[m..n], Success) == 0
  }

  /**
    Closed means the count is that of the failures since the last success or closing, and below the
    threshold; not closed means it has reached the threshold.
   */
  lemma {:induction false} FailureCount(cfg: Config, states: seq<State>, events: seq<Event>, n: nat)
    requires Run(cfg, states, events) && n <= |events| && cfg.failureThreshold >= 1 && cfg.maxProbes >= 1
    ensures states[n].mode.Closed? ==>
      && states[n].failures < cfg.failureThreshold
      && (exists m: nat :: ClosedSince(states, events, m, n) && states[n].failures == Count(events[m..n], Failure))
    ensures !states[n].mode.Closed? ==> states[n].failures >= cfg.failureThreshold
    decreases n
  {
    if n == 0 {
      CountNone(events, 0, Success);
      CountNone(events, 0, Failure);
      assert ClosedSince(states, events, 0, 0);
    } else {
      FailureCount(cfg, states, events, n - 1);
      StepAt(cfg, states, events, n - 1);
      if states[n].mode.Closed? {
        if events[n - 1].kind.Success? {
          CountNone(events, n, Success);
          CountNone(events, n, Failure);
          assert ClosedSince(states, events, n, n);
        } else {
          var m: nat :| ClosedSince(states, events, m, n - 1) && states[n - 1].failures == Count(events[m..n - 1], Failure);
          ClosedOn(cfg, states, events, m, n - 1);
        }
      }
    }
  }

  lemma ClosedOn(cfg: Config, states: seq<State>, events: seq<Event>, m: nat, n: nat)
    requires n < |events| < |states| && states[n + 1] == Next(cfg, states[n], events[n])
    requires states[n + 1].mode.Closed? && !events[n].kind.Success?
    requires ClosedSince(states, events, m, n) && states[n].failures == Count(events[m..n], Failure)
    ensures ClosedSince(states, events, m, n + 1) && states[n + 1].failures == Count(events[m..n + 1], Failure)
  {
    CountNext(events, m, n, Success);
    CountNext(events, m, n, Failure);
    hide Count;
  }

  // ---- the cooldown -----------------------------------------------------------------------------------------

  /** Since a moment the breaker opened: still open with a change no earlier, or the cooldown has passed. */
  ghost predicate CoolingSince(cfg: Config, s: State, from: int, now: int) {
    (s.mode.Open? && s.lastStateChange >= from) || now - from > cfg.cooldownMs
  }

  lemma {:induction false} Cooling(cfg: Config, states: seq<State>, events: seq<Event>, i: nat, j: nat)
    requires Run(cfg, states, events) && i < j <= |events|
    requires states[i + 1].mode.Open? && states[i + 1].lastStateChange == events[i].at
    ensures CoolingSince(cfg, states[j], events[i].at, events[j - 1].at)
    decreases j
  {
    if j > i + 1 {
      Cooling(cfg, states, events, i, j - 1);
      StepAt(cfg, states, events, j - 1);
      assert events[i].at <= events[j - 2].at <= events[j - 1].at;
    }
  }

  /**
    A failure seen while the breaker is not closed, or the one that reaches the threshold, opens it
    with a full cooldown from that moment: no later call is admitted until the cooldown has passed.
   */
  lemma NoCallDuringACooldown(cfg: Config, states: seq<State>, events: seq<Event>, i: nat, j: nat)
    requires Run(cfg, states, events) && i < j < |events| && cfg.failureThreshold >= 1 && cfg.maxProbes >= 1
    requires events[i].kind.Failure? && (!states[i].mode.Closed? || states[i].failures + 1 >= cfg.failureThreshold)
    ensures states[i + 1].mode.Open? && states[i + 1].lastStateChange == events[i].at
    ensures Admitted(cfg, states[j], events[j]) ==> events[j].at - events[i].at > cfg.cooldownMs
  {
    FailureCount(cfg, states, events, i);
    StepAt(cfg, states, events, i);
    Cooling(cfg, states, events, i, j);
    assert events[i].at <= events[j - 1].at <= events[j].at;
  }

  // ---- who is let through -----------------------------------------------------------------------------------

  /** The last failure before `j` is event `i`, and the breaker has been open since. */
  ghost predicate OpenedBy(states: seq<State>, events: seq<Event>, i: nat, j: nat) {
    && i < j <= |events| < |states| && events[i].kind.Failure?
    && (forall k :: i < k < j ==> !events[k].kind.Failure?)
    && (forall k :: i < k <= j ==> states[k].mode.Open?)
  }

  lemma {:induction false} OpenSinceAFailure(cfg: Config, states: seq<State>, events: seq<Event>, j: nat) returns (i: nat)
    requires Run(cfg, states, events) && j <= |events| && states[j].mode.Open? && cfg.failureThreshold >= 1 && cfg.maxProbes >= 1
    ensures OpenedBy(states, events, i, j) && states[j].lastStateChange == events[i].at
    decreases j
  {
    var n := j - 1;
    StepAt(cfg, states, events, n);
    FailureCount(cfg, states, events, n);
    if events[n].kind.Failure? {
      i := n;
    } else {
      hide Run;
      i := OpenSinceAFailure(cfg, states, events, n);
    }
  }

  /** Event `j`, a call, is let through if it comes more than the cooldown after event `i`, and refused otherwise. */
  ghost predicate LetThroughAfter(cfg: Config, states: seq<State>, events: seq<Event>, i: nat, j: nat)
    requires i < |events| && j < |events| < |states|
  {
    if events[j].at - events[i].at > cfg.cooldownMs
    then Admitted(cfg, states[j], events[j]) && states[j + 1].mode.HalfOpen? && states[j + 1].probes == 0
    else !Admitted(cfg, states[j], events[j]) && states[j + 1] == states[j]
  }

  /**
    A call is let through while the breaker is closed or half open; while it is open, exactly when more
    than the cooldown has passed since the last failure, and then the breaker is half open.
   */
  lemma CallsAreLetThrough(cfg: Config, states: seq<State>, events: seq<Event>, j: nat)
    requires Run(cfg, states, events) && j < |events| && events[j].kind.Begin? && cfg.failureThreshold >= 1 && cfg.maxProbes >= 1
    ensures !states[j].mode.Open? ==> Admitted(cfg, states[j], events[j]) && states[j + 1] == states[j]
    ensures states[j].mode.Open? ==> exists i: nat :: OpenedBy(states, events, i, j) && LetThroughAfter(cfg, states, events, i, j)
  {
    StepAt(cfg, states, events, j);
    if states[j].mode.Open? {
      var i := OpenSinceAFailure(cfg, states, events, j);
    }
  }

  /** Half open: the success that completes the probe count closes the breaker, and any failure opens it again. */
  lemma ProbesDecide(cfg: Config, s: State, e: Event)
    requires s.mode.HalfOpen?
    ensures e.kind.Failure? ==> Next(cfg, s, e).mode.Open? && Next(cfg, s, e).lastStateChange == e.at
    ensures e.kind.Success? ==> (Next(cfg, s, e).mode.Closed? <==> s.probes + 1 >= cfg.maxProbes)
    ensures e.kind.Success? && Next(cfg, s, e).mode.Closed? ==> Next(cfg, s, e).failures == 0
    ensures e.kind.Success? && !Next(cfg, s, e).mode.Closed? ==> Next(cfg, s, e).mode.HalfOpen? && Next(cfg, s, e).probes == s.probes + 1
  {}

  /** Closed: a success forgets the failures, and the failure that reaches the threshold opens the breaker. */
  lemma FailuresTrip(cfg: Config, s: State, e: Event)
    requires s.mode.Closed?
    ensures e.kind.Success? ==> Next(cfg, s, e).mode.Closed? && Next(cfg, s, e).failures == 0
    ensures e.kind.Failure? ==> Next(cfg, s, e).failures == s.failures + 1
    ensures e.kind.Failure? ==> (Next(cfg, s, e).mode.Open? <==> s.failures + 1 >= cfg.failureThreshold)
    ensures e.kind.Failure? && !Next(cfg, s, e).mode.Open? ==> Next(cfg, s, e).mode.Closed?
  {}

  /** Every change of mode is dated; a failure while open dates the opening anew; nothing else touches the date. */
  lemma ChangesAreDated(cfg: Config, s: State, e: Event)
    requires cfg.failureThreshold >= 1 && (s.mode.Open? ==> s.failures >= cfg.failureThreshold)
    ensures Next(cfg, s, e).lastStateChange ==
      if Next(cfg, s, e).mode != s.mode || (e.kind.Failure? && s.mode.Open?) then e.at else s.lastStateChange
  {}

  // ---- closing again -------------------------------------------------------------------------------------------

  /** Half open since `h`: entered there from open by a call that was let through, no failure since, `probes` successes. */
  ghost predicate ProbingSince(states: seq<State>, events: seq<Event>, h: nat, n: nat) {
    && 0 < h <= n <= |events| < |states|
    && states[h - 1].mode.Open? && events[h - 1].kind.Begin?
    && (forall i :: h <= i <= n ==> states[i].mode.HalfOpen?)
    && Count(events[h..n], Failure) == 0
    && Count(events[h..n], Success) == states[n].probes
  }

  lemma {:induction false} Probing(cfg: Config, states: seq<State>, events: seq<Event>, n: nat)
    requires Run(cfg, states, events) && n <= |events| && states[n].mode.HalfOpen? && cfg.maxProbes >= 1
    ensures states[n].probes < cfg.maxProbes
    ensures exists h: nat :: ProbingSince(states, events, h, n)
    decreases n
  {
    assert n > 0 && |states| == |events| + 1;
    StepAt(cfg, states, events, n - 1);
    hide Run, Count;
    if states[n - 1].mode.HalfOpen? {
      hide ProbingSince;
      Probing(cfg, states, events, n - 1);
      var h: nat :| ProbingSince(states, events, h, n - 1);
      ProbingOn(cfg, states, events, h, n - 1);
      hide Next;
    } else {
      CountNone(events, n, Success);
      CountNone(events, n, Failure);
      assert ProbingSince(states, events, n, n);
    }
  }

  lemma ProbingOn(cfg: Config, states: seq<State>, events: seq<Event>, h: nat, n: nat)
    requires n < |events| && |states| == |events| + 1 && ProbingSince(states, events, h, n)
    requires states[n].probes < cfg.maxProbes
    requires states[n + 1] == Next(cfg, states[n], events[n]) && states[n + 1].mode.HalfOpen?
    ensures ProbingSince(states, events, h, n + 1) && states[n + 1].probes < cfg.maxProbes
  {
    CountNext(events, h, n, Success);
    CountNext(events, h, n, Failure);
    hide Count;
  }

  /**
    The breaker closes only from half open, at the success that completes the probe count: since it
    entered half open from open there was no failure, and exactly the configured number of successes.
   */
  lemma ClosesOnlyAfterAllProbes(cfg: Config, states: seq<State>, events: seq<Event>, n: nat)
    requires Run(cfg, states, events) && n < |events| && cfg.maxProbes >= 1
    requires !states[n].mode.Closed? && states[n + 1].mode.Closed?
    ensures events[n].kind.Success? && states[n].mode.HalfOpen?
    ensures exists h: nat ::
      ProbingSince(states, events, h, n)
      && Count(events[h..n + 1], Success) == cfg.maxProbes && Count(events[h..n + 1], Failure) == 0
  {
    StepAt(cfg, states, events, n);
    Probing(cfg, states, events, n);
    var h: nat :| ProbingSince(states, events, h, n);
    CountNext(events, h, n, Success);
    CountNext(events, h, n, Failure);
  }

  // ---- the breaker object -----------------------------------------------------------------------------------------

  class CircuitBreaker {
    const config: Config
    var mode: Mode
    var failures: nat
    var lastStateChange: int
    var probes: nat

    ghost function S(): State
      reads this
    {
      State(mode, failures, lastStateChange, probes)
    }

    constructor (config: Config, now: int)
      ensures S() == State(Closed, 0, now, 0) && this.config == config
    {
      this.config := config;
      mode, failures, lastStateChange, probes := Closed, 0, now, 0;
    }

    /** The part of `run` before the call: check the clock, then refuse or let through. */
    method BeginCall(now: int) returns (admitted: bool)
      modifies this
      ensures S() == Next(config, old(S()), Event(Begin, now))
      ensures admitted == Admitted(config, old(S()), Event(Begin, now))
    {
      CheckState(now);
      return mode != Open;
    }

    method CheckState(now: int)
      modifies this
      ensures S() == Next(config, old(S()), Event(Begin, now))
    {
      if mode == Open {
        var elapsed := now - lastStateChange;
        if elapsed > config.cooldownMs { TransitionTo(HalfOpen, now); }
      }
    }

    method OnSuccess(now: int)
      modifies this
      ensures S() == Next(config, old(S()), Event(Success, now))
    {
      if mode == HalfOpen {
        probes := probes + 1;
        if probes >= config.maxProbes { TransitionTo(Closed, now); }
      } else if mode == Closed {
        failures := 0;
      }
    }

    method OnFailure(now: int)
      modifies this
      ensures S() == Next(config, old(S()), Event(Failure, now))
    {
      failures := failures + 1;
      if mode == HalfOpen || failures >= config.failureThreshold { TransitionTo(Open, now); }
    }

    method TransitionTo(newMode: Mode, now: int)
      modifies this
      ensures S() == MoveTo(old(S()), newMode, now)
    {
      mode := newMode;
      lastStateChange := now;
      if newMode == Closed { failures := 0; }
      else if newMode == HalfOpen { probes := 0; }
    }
  }
}
