/** Which steps the queue protocol can always make, and what the steps outside the scripts and writes do. */
module RedisSteps {
  import opened OptionType
  import opened JobRecord
  import opened RedisQueue
  import opened RedisAcquire
  import opened StableSort

  /** The members of an index scored lo..hi, each once, scores rising. */
  ghost predicate Lists(z: map<JobId, int>, lo: int, hi: int, ids: seq<JobId>) {
    && (forall id :: id in z && lo <= z[id] && z[id] <= hi ==> id in ids)
    && (forall i :: 0 <= i < |ids| ==> ids[i] in z && lo <= z[ids[i]] <= hi && ids[i] !in ids[..i])
    && (forall i :: 0 < i < |ids| ==> z[ids[i - 1]] <= z[ids[i]])
  }

  lemma RangeLists(z: map<JobId, int>, lo: int, hi: int, ids: seq<JobId>)
    requires RangeReply(z, lo, hi, ids)
    ensures Lists(z, lo, hi, ids)
  {
    forall i | 0 <= i < |ids| ensures ids[i] !in ids[..i] {}
  }

  lemma HighestScore(z: map<JobId, int>, left: set<JobId>) returns (top: JobId)
    requires left != {} && left <= z.Keys
    ensures top in left && forall id :: id in left ==> z[id] <= z[top]
    decreases |left|
  {
    top :| top in left;
    var rest := left - {top};
    if rest != {} {
      var other := HighestScore(z, rest);
      if z[top] < z[other] { top := other; }
    }
  }

  lemma {:induction false} InScoreOrder(z: map<JobId, int>, left: set<JobId>) returns (ids: seq<JobId>)
    requires left <= z.Keys
    ensures forall id :: id in ids <==> id in left
    ensures forall i, j :: 0 <= i < j < |ids| ==> ids[i] != ids[j] && z[ids[i]] <= z[ids[j]]
    decreases |left|
  {
    if left == {} {
      ids := [];
    } else {
      var top := HighestScore(z, left);
      var before := InScoreOrder(z, left - {top});
      assert forall i :: 0 <= i < |before| ==> before[i] in left - {top};
      ids := before + [top];
    }
  }

  /** A worker that asks for the due ids always gets an answer, whatever the index holds. */
  lemma RangeIsAnswered(s: State, w: WorkerId) returns (ids: seq<JobId>, t: State)
    requires PcOf(s, w).AcquireRange?
    ensures Next(s, t, Range(w, ids))
  {
    var pc := PcOf(s, w);
    var z := Zset(s, pc.queue);
    ids := InScoreOrder(z, set id | id in z && 0 <= z[id] <= pc.now);
    t := Move(s, w, if ids == [] then Idle else AcquireMget(pc.queue, pc.now, pc.lockMs, ids));
  }

  /** An answer lists exactly the indexed ids scored 0 to the worker's clock reading; the worker stops if it is empty. */
  lemma RangeMeans(s: State, t: State, w: WorkerId, ids: seq<JobId>)
    requires Next(s, t, Range(w, ids))
    ensures var pc := PcOf(s, w);
      && pc.AcquireRange? && Lists(Zset(s, pc.queue), 0, pc.now, ids)
      && PcOf(t, w) == (if |ids| == 0 then Idle else AcquireMget(pc.queue, pc.now, pc.lockMs, ids))
      && t == s.(workers := t.workers) && forall v :: v != w ==> PcOf(t, v) == PcOf(s, v)
  {
    var pc := PcOf(s, w);
    RangeLists(Zset(s, pc.queue), 0, pc.now, ids);
  }

  /** Only the clock step moves the time, to any later one; an idle worker may poll any queue, with the time as its reading. */
  lemma TimeAndPolls(s: State, t: State, step: Step)
    requires Next(s, t, step)
    ensures t.clock == if step.Tick? then step.clock else s.clock
    ensures step.Tick? ==> t == s.(clock := step.clock)
    ensures step.Poll? ==> PcOf(t, step.w) == AcquireRange(step.queue, s.clock, step.lockMs) && t == s.(workers := t.workers)
  {
    if step.Command? { CommandKeepsTime(s, step.w); }
    hide RunCommand, RangeReply, Fresh, AfterFailure;
  }

  lemma CommandKeepsTime(s: State, w: WorkerId)
    ensures RunCommand(s, w).clock == s.clock
  {
    hide Sort, DueRecords, FailedAttempt, NormalizeLock, Locked, AfterMiss;
  }

  /** An idle worker may save any job with an id never used, without attempts, error or lock. */
  lemma AnyNewJobMayBeSaved(s: State, w: WorkerId, id: JobId, queue: QueueName, priority: int, runAt: int, maxAttempts: int) returns (t: State)
    requires PcOf(s, w) == Idle && id !in s.issued
    ensures Next(s, t, Enqueue(w, Job(id, queue, Pending, priority, runAt, 0, maxAttempts, None, None, None)))
    ensures PcOf(t, w) == SaveGet(Job(id, queue, Pending, priority, runAt, 0, maxAttempts, None, None, None))
    ensures t.issued == s.issued + {id} && t.records == s.records && t.zsets == s.zsets
  {
    var job := Job(id, queue, Pending, priority, runAt, 0, maxAttempts, None, None, None);
    t := Move(s, w, SaveGet(job)).(issued := s.issued + {id});
  }

  // ---- no worker is ever stuck -------------------------------------------------------------------------------

  /** How far an operation is from its end, step by step. */
  function Left(pc: Pc): nat {
    match pc
    case Idle => 0
    case Handling(_) => 0
    case SaveGet(_) => 7
    case SaveSremOld(_, _) => 6
    case SaveZremOld(_, _) => 5
    case SaveSet(_) => 4
    case SaveSaddAll(_) => 3
    case SaveSaddQueue(_) => 2
    case SaveIndex(_) => 1
    case AcquireRange(_, _, _) => 1
    case AcquireMget(_, _, _, ids) => |ids| + 2
    case AcquireEval(_, _, _, candidates) => |candidates| + 1
    case CompleteGet(_) => 3
    case CompleteSet(_) => 2
    case CompleteZrem(_) => 1
    case FailGet(_, _, _) => 3
    case FailSet(_) => 2
    case FailIndex(_) => 1
  }

  lemma {:induction false} NoMoreThanAsked(records: map<JobId, Job>, ids: seq<JobId>, now: int)
    ensures |DueRecords(records, ids, now)| <= |ids|
  {
    if ids != [] { NoMoreThanAsked(records, ids[1..], now); }
  }

  /** The command brings its worker nearer to the end of what it does, or ends it. */
  predicate Nearer(s: State, w: WorkerId) {
    var pc := PcOf(RunCommand(s, w), w);
    !pc.AcquireRange? && (pc.Idle? || pc.Handling? || Left(pc) < Left(PcOf(s, w)))
  }

  lemma SavingNearer(s: State, w: WorkerId)
    requires var pc := PcOf(s, w);
      pc.SaveGet? || pc.SaveSremOld? || pc.SaveZremOld? || pc.SaveSet? || pc.SaveSaddAll? || pc.SaveSaddQueue? || pc.SaveIndex?
    ensures Nearer(s, w)
  {
    hide Sort, DueRecords, FailedAttempt, NormalizeLock, Listed, Zset, Eval;
  }

  lemma AskingNearer(s: State, w: WorkerId)
    requires PcOf(s, w).AcquireMget?
    ensures Nearer(s, w)
  {
    var pc := PcOf(s, w);
    NoMoreThanAsked(s.records, pc.ids, pc.now);
    hide Sort, DueRecords, FailedAttempt, NormalizeLock, Eval, Listed, Zset;
  }

  lemma TryingNearer(s: State, w: WorkerId)
    requires PcOf(s, w).AcquireEval?
    ensures Nearer(s, w)
  {
    hide Sort, DueRecords, FailedAttempt, NormalizeLock, Locked, Listed, Zset;
  }

  lemma EndingNearer(s: State, w: WorkerId)
    requires var pc := PcOf(s, w);
      pc.CompleteGet? || pc.CompleteSet? || pc.CompleteZrem? || pc.FailGet? || pc.FailSet? || pc.FailIndex?
    ensures Nearer(s, w)
  {
    hide Sort, DueRecords, FailedAttempt, NormalizeLock, Listed, Zset, Eval;
  }

  lemma CommandsBringItNearer(s: State, w: WorkerId)
    requires var pc := PcOf(s, w); !pc.Idle? && !pc.AcquireRange? && !pc.Handling?
    ensures Nearer(s, w)
  {
    hide *;
    var pc := PcOf(s, w);
    if pc.AcquireMget? { AskingNearer(s, w); }
    else if pc.AcquireEval? { TryingNearer(s, w); }
    else if pc.CompleteGet? || pc.CompleteSet? || pc.CompleteZrem? || pc.FailGet? || pc.FailSet? || pc.FailIndex? { EndingNearer(s, w); }
    else { SavingNearer(s, w); }
  }

  /** A worker always has a next step: to poll, to be answered, to hear from its handler, or its command. */
  lemma NoWorkerIsStuck(s: State, w: WorkerId) returns (step: Step, t: State)
    ensures Next(s, t, step) && Mover(step) == Some(w)
  {
    var pc := PcOf(s, w);
    if pc.AcquireRange? {
      var ids;
      ids, t := RangeIsAnswered(s, w);
      step := Range(w, ids);
    } else {
      hide RunCommand;
      if pc.Idle? {
        step, t := Poll(w, "", 0), Move(s, w, AcquireRange("", s.clock, 0));
      } else if pc.Handling? {
        step, t := HandlerOk(w), Move(s, w, CompleteGet(pc.job.id));
      } else {
        step, t := Command(w), RunCommand(s, w);
      }
    }
  }

  /** Between two moments of one operation: still at it throughout. */
  ghost predicate Busy(states: seq<State>, i: nat, j: nat, w: WorkerId) {
    i <= j < |states| && forall k :: i <= k <= j ==> var pc := PcOf(states[k], w); !pc.Idle? && !pc.Handling? && !pc.AcquireRange?
  }

  function OwnSteps(steps: seq<Step>, i: nat, j: nat, w: WorkerId): nat
    requires i <= j <= |steps|
    decreases j
  {
    if i == j then 0 else OwnSteps(steps, i, j - 1, w) + if Mover(steps[j - 1]) == Some(w) then 1 else 0
  }

  /**
    Every operation ends: in every run, however the others interleave, a worker runs no more commands for
    one operation than are left of it at the start: seven for a save, three to complete or fail a job, and
    to acquire one the MGET and one script for each id of the reply.
   */
  lemma {:induction false} OperationsEnd(states: seq<State>, steps: seq<Step>, i: nat, j: nat, w: WorkerId)
    requires Run(states, steps) && i <= j <= |steps| && Busy(states, i, j, w)
    ensures OwnSteps(steps, i, j, w) + Left(PcOf(states[j], w)) <= Left(PcOf(states[i], w))
    ensures OwnSteps(steps, i, j, w) < Left(PcOf(states[i], w))
    decreases j
  {
    hide *;
    if i == j {
      SomethingLeft(states, i, j, w);
      NoSteps(steps, i, w);
    } else {
      var n := j - 1;
      BusyBefore(states, i, j, w);
      OperationsEnd(states, steps, i, n, w);
      StepOf(states, steps, n);
      OneMore(steps, i, j, w);
      SomethingLeft(states, i, j, w);
      if Mover(steps[n]) == Some(w) { NearerStep(states[n], states[j], steps[n], w); }
      else { OthersStand(states[n], states[j], steps[n], w); }
    }
  }

  lemma NoSteps(steps: seq<Step>, i: nat, w: WorkerId)
    requires i <= |steps|
    ensures OwnSteps(steps, i, i, w) == 0
  {}

  lemma OneMore(steps: seq<Step>, i: nat, j: nat, w: WorkerId)
    requires i < j <= |steps|
    ensures OwnSteps(steps, i, j, w) == OwnSteps(steps, i, j - 1, w) + if Mover(steps[j - 1]) == Some(w) then 1 else 0
  {}

  lemma BusyBefore(states: seq<State>, i: nat, j: nat, w: WorkerId)
    requires Busy(states, i, j, w) && i < j
    ensures Busy(states, i, j - 1, w)
    ensures var pc := PcOf(states[j - 1], w); !pc.Idle? && !pc.Handling? && !pc.AcquireRange?
    ensures var pc := PcOf(states[j], w); !pc.Idle? && !pc.Handling? && !pc.AcquireRange?
  {}

  lemma SomethingLeft(states: seq<State>, i: nat, j: nat, w: WorkerId)
    requires Busy(states, i, j, w)
    ensures Left(PcOf(states[j], w)) > 0
  {}

  lemma NearerStep(s: State, t: State, step: Step, w: WorkerId)
    requires Next(s, t, step) && Mover(step) == Some(w)
    requires var pc := PcOf(s, w); !pc.Idle? && !pc.Handling? && !pc.AcquireRange?
    requires var pc := PcOf(t, w); !pc.Idle? && !pc.Handling? && !pc.AcquireRange?
    ensures Left(PcOf(t, w)) < Left(PcOf(s, w))
  {
    hide RunCommand, Left;
    CommandsBringItNearer(s, w);
  }
}
