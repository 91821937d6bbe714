/**
  The worker loop: how many acquisitions are on their way, which workers run, and which wake-ups are
  armed. Each event is one turn of the event loop.
 */
module Scheduler {
  import opened OptionType
  import opened JobRecord

  /** `handles` numbers the timers; `issued` and `started` count acquisitions asked for and jobs handed to a worker. */
  datatype State = State(
    running: bool,
    pendingAcquires: nat,
    activeWorkers: set<nat>,
    timers: set<nat>,
    timer: Option<nat>,
    immediates: nat,
    handles: nat,
    issued: nat,
    started: nat)

  datatype Event =
    | Start
    | Stop
    | TimerFires(timer: nat)
    | ImmediateFires
    | Acquired(worker: nat)
    | NothingAcquired
    | WorkerDone(worker: nat)

  const INITIAL: State := State(false, 0, {}, {}, None, 0, 0, 0, 0)

  function Load(s: State): nat { |s.activeWorkers| + s.pendingAcquires }

  /** setTimeout: a new handle, remembered as the last one. */
  function Arm(s: State): State {
    s.(timers := s.timers + {s.handles}, timer := Some(s.handles), handles := s.handles + 1)
  }

  /** Reserves every free slot, or polls later when all workers are busy and nothing is on its way. */
  function Tick(s: State, max: nat): State
    decreases max - Load(s)
  {
    if !s.running then s
    else if Load(s) >= max then
      if s.pendingAcquires == 0 then Arm(s) else s
    else
      Tick(s.(pendingAcquires := s.pendingAcquires + 1, issued := s.issued + 1), max)
  }

  /** A timer fires if it is armed, an acquisition ends if it was asked for, a worker ends if it runs. */
  predicate Enabled(s: State, e: Event) {
    match e
    case TimerFires(t) => t in s.timers
    case ImmediateFires => s.immediates > 0
    case Acquired(w) => s.pendingAcquires > 0 && w !in s.activeWorkers
    case NothingAcquired => s.pendingAcquires > 0
    case WorkerDone(w) => w in s.activeWorkers
    case _ => true
  }

  function Next(s: State, e: Event, max: nat): State
    requires Enabled(s, e)
  {
    match e
    case Start => if s.running then s else Tick(s.(running := true), max)
    case Stop => s.(running := false, timers := if s.timer.Some? then s.timers - {s.timer.value} else s.timers)
    case TimerFires(t) => Tick(s.(timers := s.timers - {t}), max)
    case ImmediateFires => Tick(s.(immediates := s.immediates - 1), max)
    case Acquired(w) =>
      s.(pendingAcquires := s.pendingAcquires - 1, activeWorkers := s.activeWorkers + {w}, started := s.started + 1)
    case NothingAcquired => Arm(s.(pendingAcquires := s.pendingAcquires - 1))
    case WorkerDone(w) => s.(activeWorkers := s.activeWorkers - {w}, immediates := s.immediates + 1)
  }

  /** `states` is a run: each state follows from the one before by an event that could happen. */
  ghost predicate Run(states: seq<State>, events: seq<Event>, max: nat) {
    && |states| == |events| + 1
    && forall i {:trigger events[i]} :: 0 <= i < |events| ==>
         Enabled(states[i], events[i]) && states[i + 1] == Next(states[i], events[i], max)
  }

  // ---- what one tick does ---------------------------------------------------------------------------

  /** A tick while running leaves no slot unreserved, and polls later only when all workers are busy. */
  lemma {:induction false} TickReservesEverySlot(s: State, max: nat)
    requires s.running && Load(s) <= max
    ensures var t := Tick(s, max);
      && Load(t) == max && t.activeWorkers == s.activeWorkers && t.running
      && t.issued - s.issued == max - Load(s) && t.started == s.started && t.immediates == s.immediates
      && (if Load(s) < max || s.pendingAcquires > 0
          then t.timers == s.timers && t.timer == s.timer
          else t == Arm(s))
    decreases max - Load(s)
  {
    if Load(s) < max {
      TickReservesEverySlot(s.(pendingAcquires := s.pendingAcquires + 1, issued := s.issued + 1), max);
    }
  }

  // ---- every reachable state --------------------------------------------------------------------------

  /** Never over the limit; and while running, a free slot always has a tick armed for it. */
  ghost predicate Inv(s: State, max: nat) {
    && Load(s) <= max
    && (s.running && Load(s) < max ==> s.timers != {} || s.immediates > 0)
  }

  lemma InvNext(s: State, e: Event, max: nat)
    requires Inv(s, max) && Enabled(s, e)
    ensures Inv(Next(s, e, max), max)
  {
    hide Tick;
    match e
    case Start => if !s.running { TickReservesEverySlot(s.(running := true), max); }
    case TimerFires(t) => TickKeeps(s.(timers := s.timers - {t}), max);
    case ImmediateFires => TickKeeps(s.(immediates := s.immediates - 1), max);
    case NothingAcquired =>
      var t := Next(s, e, max);
      assert s.handles in t.timers;
    case _ =>
  }

  lemma TickKeeps(s: State, max: nat)
    requires Load(s) <= max
    ensures Inv(Tick(s, max), max)
  {
    if s.running { TickReservesEverySlot(s, max); }
  }

  lemma {:induction false} InvRun(states: seq<State>, events: seq<Event>, max: nat, i: nat)
    requires Run(states, events, max) && states[0] == INITIAL && i <= |events|
    ensures Inv(states[i], max)
  {
    if i > 0 {
      InvRun(states, events, max, i - 1);
      assert Enabled(states[i - 1], events[i - 1]);
      InvNext(states[i - 1], events[i - 1], max);
    }
  }

  /** maxConcurrency bounds the workers and the reserved slots together, at every moment of every run. */
  lemma NeverOverTheLimit(states: seq<State>, events: seq<Event>, max: nat, i: nat)
    requires Run(states, events, max) && states[0] == INITIAL && i <= |events|
    ensures |states[i].activeWorkers| + states[i].pendingAcquires <= max
  {
    InvRun(states, events, max, i);
  }

  /**
    While running, the loop can always go on by itself: an acquisition is on its way, a worker runs
    (and will arm a tick when it ends), or a tick is armed; and with a slot free, a tick is armed.
   */
  lemma AlwaysAWakeUp(states: seq<State>, events: seq<Event>, max: nat, i: nat)
    requires max > 0 && Run(states, events, max) && states[0] == INITIAL && i <= |events|
    requires states[i].running
    ensures var s := states[i];
      && (s.pendingAcquires > 0 || s.activeWorkers != {} || s.timers != {} || s.immediates > 0)
      && (Load(s) < max ==> exists e: Event ::
            && (e.TimerFires? || e.ImmediateFires?) && Enabled(s, e) && Load(Next(s, e, max)) == max)
  {
    InvRun(states, events, max, i);
    var s := states[i];
    if Load(s) < max {
      if s.timers != {} {
        var t :| t in s.timers;
        TickReservesEverySlot(s.(timers := s.timers - {t}), max);
        assert Enabled(s, TimerFires(t)) && Load(Next(s, TimerFires(t), max)) == max;
      } else {
        TickReservesEverySlot(s.(immediates := s.immediates - 1), max);
        assert Enabled(s, ImmediateFires) && Load(Next(s, ImmediateFires, max)) == max;
      }
    }
  }

  /**
    After stop, until the next start: nothing more is asked of the storage, so the jobs that still
    start are at most the acquisitions that were on their way when stop was called.
   */
  lemma {:induction false} StopIssuesNothing(states: seq<State>, events: seq<Event>, max: nat, stopped: nat, now: nat)
    requires Run(states, events, max) && stopped <= now <= |events| && !states[stopped].running
    requires forall i :: stopped <= i < now ==> events[i] != Start
    ensures var s, t := states[stopped], states[now];
      !t.running && t.issued == s.issued && t.started + t.pendingAcquires <= s.started + s.pendingAcquires
    decreases now
  {
    if stopped < now {
      StopIssuesNothing(states, events, max, stopped, now - 1);
      var s, e := states[now - 1], events[now - 1];
      assert Enabled(s, e) && states[now] == Next(s, e, max);
    }
  }

  // ---- event by event ----------------------------------------------------------------------------------------

  /** Nothing but the reserved slots and what asking for them issues has changed. */
  ghost predicate SameBut(s: State, t: State, pending: int, workers: set<nat>, started: int) {
    && t.running == s.running && t.activeWorkers == workers && t.pendingAcquires == pending && t.started == started
    && t.issued == s.issued
  }

  /** A new timer is armed beside those there are, and is the one a stop would clear. */
  ghost predicate ArmsATimer(s: State, t: State) {
    && t.timers == s.timers + {s.handles}
    && t.timer == Some(s.handles) && t.handles > s.handles && t.immediates == s.immediates
  }

  /**
    An acquired job takes its reserved slot with it to its worker; an acquisition without a job frees its
    slot and polls later; a worker that ends frees its slot and arms a tick to follow at once.
   */
  lemma SlotsMean(s: State, e: Event, max: nat)
    requires Enabled(s, e)
    ensures var t := Next(s, e, max);
      match e
      case Acquired(w) =>
        && SameBut(s, t, s.pendingAcquires - 1, s.activeWorkers + {w}, s.started + 1) && |t.activeWorkers| == |s.activeWorkers| + 1
        && t.timers == s.timers && t.immediates == s.immediates
      case NothingAcquired =>
        SameBut(s, t, s.pendingAcquires - 1, s.activeWorkers, s.started) && ArmsATimer(s, t)
      case WorkerDone(w) =>
        && SameBut(s, t, s.pendingAcquires, s.activeWorkers - {w}, s.started) && |t.activeWorkers| == |s.activeWorkers| - 1
        && t.timers == s.timers && t.immediates == s.immediates + 1
      case Stop =>
        && !t.running && t.activeWorkers == s.activeWorkers && t.pendingAcquires == s.pendingAcquires && t.immediates == s.immediates
        && (forall h :: h in t.timers <==> h in s.timers && s.timer != Some(h))
      case _ => true
  {}

  /** Every run with an acquisition on its way goes on with either reply to it, and with every worker ending that is active. */
  lemma EveryReplyIsTaken(states: seq<State>, events: seq<Event>, max: nat, e: Event)
    requires Run(states, events, max)
    requires var s := states[|events|];
      match e
      case Acquired(w) => s.pendingAcquires >= 1 && w !in s.activeWorkers
      case NothingAcquired => s.pendingAcquires >= 1
      case WorkerDone(w) => w in s.activeWorkers
      case TimerFires(t) => t in s.timers
      case ImmediateFires => s.immediates >= 1
      case _ => true
    ensures Enabled(states[|events|], e) && Run(states + [Next(states[|events|], e, max)], events + [e], max)
  {
    hide Next;
    var more, t := events + [e], states + [Next(states[|events|], e, max)];
    forall i | 0 <= i < |more| ensures Enabled(t[i], more[i]) && t[i + 1] == Next(t[i], more[i], max) {
      if i < |events| { assert t[i] == states[i] && more[i] == events[i]; }
    }
  }

  lemma {:induction false} ImmediatesWait(states: seq<State>, events: seq<Event>, max: nat, i: nat, j: nat)
    requires Run(states, events, max) && i <= j <= |events| && states[i].immediates > 0
    requires forall k :: i <= k < j ==> events[k] != ImmediateFires
    ensures states[j].immediates > 0
    decreases j
  {
    if i < j {
      ImmediatesWait(states, events, max, i, j - 1);
      var s, e := states[j - 1], events[j - 1];
      assert Enabled(s, e) && states[j] == Next(s, e, max);
      KeepsImmediates(s, e, max);
    }
  }

  lemma KeepsImmediates(s: State, e: Event, max: nat)
    requires Enabled(s, e) && e != ImmediateFires
    ensures Next(s, e, max).immediates >= s.immediates
  {
    if e.Start? && !s.running { TickImmediates(s.(running := true), max); }
    if e.TimerFires? { TickImmediates(s.(timers := s.timers - {e.timer}), max); }
  }

  lemma {:induction false} TickImmediates(s: State, max: nat)
    ensures Tick(s, max).immediates == s.immediates
    decreases max - Load(s)
  {
    if s.running && Load(s) < max { TickImmediates(s.(pendingAcquires := s.pendingAcquires + 1, issued := s.issued + 1), max); }
  }

  /**
    When a worker ends it leaves its slot, a tick is armed until one fires, and if the scheduler is
    running then, the tick fills every slot that is free: that one too.
   */
  lemma AFinishedWorkersSlotIsFilled(states: seq<State>, events: seq<Event>, max: nat, i: nat, j: nat, w: nat)
    requires Run(states, events, max) && states[0] == INITIAL && i < j < |events| && events[i] == WorkerDone(w)
    requires events[j] == ImmediateFires && forall k :: i < k < j ==> events[k] != ImmediateFires
    ensures w in states[i].activeWorkers && states[i + 1].activeWorkers == states[i].activeWorkers - {w}
    ensures forall k :: i < k <= j ==> Enabled(states[k], ImmediateFires)
    ensures states[j].running ==>
      && |states[j + 1].activeWorkers| + states[j + 1].pendingAcquires == max && states[j + 1].activeWorkers == states[j].activeWorkers
      && states[j + 1].issued - states[j].issued == max - |states[j].activeWorkers| - states[j].pendingAcquires
  {
    assert Enabled(states[i], events[i]) && states[i + 1] == Next(states[i], events[i], max);
    assert Enabled(states[j], events[j]) && states[j + 1] == Next(states[j], events[j], max);
    forall k | i < k <= j ensures Enabled(states[k], ImmediateFires) { ImmediatesWait(states, events, max, i + 1, k); }
    InvRun(states, events, max, j);
    if states[j].running { TickReservesEverySlot(states[j].(immediates := states[j].immediates - 1), max); }
  }

  // ---- the scheduler object -------------------------------------------------------------------------------

  class JobScheduler {
    const maxConcurrency: nat
    var running: bool
    var pendingAcquires: nat
    var activeWorkers: set<nat>
    var timers: set<nat>
    var timer: Option<nat>
    var immediates: nat
    var handles: nat
    var issued: nat
    var started: nat

    ghost function S(): State
      reads this
    {
      State(running, pendingAcquires, activeWorkers, timers, timer, immediates, handles, issued, started)
    }

    /** The source refuses a limit that is not positive. */
    constructor (maxConcurrency: nat)
      requires maxConcurrency > 0
      ensures S() == INITIAL && this.maxConcurrency == maxConcurrency
    {
      this.maxConcurrency := maxConcurrency;
      running, pendingAcquires, activeWorkers := false, 0, {};
      timers, timer, immediates, handles, issued, started := {}, None, 0, 0, 0, 0;
    }

    method SetTimeout()
      modifies this
      ensures S() == Arm(old(S()))
    {
      timers := timers + {handles};
      timer := Some(handles);
      handles := handles + 1;
    }

    method DoTick()
      modifies this
      ensures S() == Tick(old(S()), maxConcurrency)
      decreases maxConcurrency - |activeWorkers| - pendingAcquires
    {
      if !running { return; }
      if |activeWorkers| + pendingAcquires >= maxConcurrency {
        if pendingAcquires == 0 { SetTimeout(); }
        return;
      }
      pendingAcquires := pendingAcquires + 1;
      issued := issued + 1;
      DoTick();
    }

    method DoStart()
      modifies this
      ensures S() == Next(old(S()), Start, maxConcurrency)
    {
      if running { return; }
      running := true;
      DoTick();
    }

    method DoStop()
      modifies this
      ensures S() == Next(old(S()), Stop, maxConcurrency)
    {
      running := false;
      if timer.Some? { timers := timers - {timer.value}; }
    }

    method OnTimer(t: nat)
      requires t in timers
      modifies this
      ensures S() == Next(old(S()), TimerFires(t), maxConcurrency)
    {
      timers := timers - {t};
      DoTick();
    }

    method OnImmediate()
      requires immediates > 0
      modifies this
      ensures S() == Next(old(S()), ImmediateFires, maxConcurrency)
    {
      immediates := immediates - 1;
      DoTick();
    }

    /** The storage answered: a job for a new worker, or nothing. */
    method OnAcquired(job: bool, worker: nat)
      requires pendingAcquires > 0 && worker !in activeWorkers
      modifies this
      ensures S() == Next(old(S()), if job then Acquired(worker) else NothingAcquired, maxConcurrency)
    {
      pendingAcquires := pendingAcquires - 1;
      if job {
        activeWorkers := activeWorkers + {worker};
        started := started + 1;
      } else {
        SetTimeout();
      }
    }

    /** The storage failed to answer: poll again later. */
    method OnAcquireError()
      requires pendingAcquires > 0
      modifies this
      ensures S() == Next(old(S()), NothingAcquired, maxConcurrency)
    {
      pendingAcquires := pendingAcquires - 1;
      SetTimeout();
    }

    method OnWorkerDone(worker: nat)
      requires worker in activeWorkers
      modifies this
      ensures S() == Next(old(S()), WorkerDone(worker), maxConcurrency)
    {
      activeWorkers := activeWorkers - {worker};
      immediates := immediates + 1;
    }
  }
}
