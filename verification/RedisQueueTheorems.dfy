/** The results about whole runs of the Redis job queue. */
module RedisQueueTheorems {
  import opened OptionType
  import opened JobRecord
  import opened RedisQueue
  import opened RedisQueueProof
  import opened StableSort

  // ---- mutual exclusion ------------------------------------------------------------------

  /** In every reachable state a record is `running` exactly when one worker owns it, and otherwise nobody does. */
  lemma RunningExactlyWhenOwned(states: seq<State>, steps: seq<Step>, i: nat, id: JobId)
    requires Run(states, steps) && i < |states|
    ensures var s := states[i];
      && (StatusOf(s, id) == Some(Running) <==>
            exists w :: Owns(PcOf(s, w), id) && forall v :: Owns(PcOf(s, v), id) ==> v == w)
      && (StatusOf(s, id) != Some(Running) ==> forall w :: !Owns(PcOf(s, w), id))
  {
    InvRun(states, steps, i);
    var s := states[i];
    assert Settled(s, id);
    if StatusOf(s, id) == Some(Running) {
      var w := Last(s.history, id).value.worker;
      assert Owns(PcOf(s, w), id);
    } else {
      forall w ensures !Owns(PcOf(s, w), id) { assert PcOk(s, PcOf(s, w)); }
    }
  }

  /** The event a step of worker `w` logs, if any. */
  function LoggedBy(s: State, w: WorkerId): Option<Event> {
    match PcOf(s, w)
    case SaveSet(job) => if job.status == Pending then None else Some(Finished(w, job.id))
    case CompleteSet(job) => Some(Finished(w, job.id))
    case FailSet(job) => Some(if job.status == Pending then Requeued(w, job.id) else Finished(w, job.id))
    case AcquireEval(_, _, _, _) =>
      if Lockable(s, PcOf(s, w)) then Some(Acquired(w, PcOf(s, w).candidates[0].id)) else None
    case _ => None
  }

  lemma CommandLogs(s: State, w: WorkerId)
    ensures RunCommand(s, w).history ==
      if LoggedBy(s, w).Some? then s.history + [LoggedBy(s, w).value] else s.history
  {}

  ghost predicate OwnershipMatchesLog(s: State, w: WorkerId, id: JobId) {
    var t := RunCommand(s, w);
    && (!Owns(PcOf(s, w), id) && Owns(PcOf(t, w), id) <==> LoggedBy(s, w) == Some(Acquired(w, id)))
    && (Owns(PcOf(s, w), id) && !Owns(PcOf(t, w), id) <==>
        LoggedBy(s, w) == Some(Requeued(w, id)) || LoggedBy(s, w) == Some(Finished(w, id)))
  }

  lemma ReadOwnership(s: State, w: WorkerId, id: JobId)
    requires NamesOk(s) && PcOk(s, PcOf(s, w))
    requires var pc := PcOf(s, w); pc.SaveGet? || pc.CompleteGet? || pc.FailGet?
    ensures OwnershipMatchesLog(s, w, id)
  {
    hide Sort, DueRecords, Eval;
  }

  lemma AcquireOwnership(s: State, w: WorkerId, id: JobId)
    requires NamesOk(s) && PcOk(s, PcOf(s, w))
    requires PcOf(s, w).AcquireMget? || PcOf(s, w).AcquireEval?
    ensures OwnershipMatchesLog(s, w, id)
  {
    hide Sort, DueRecords;
  }

  lemma CommandOwnership(s: State, w: WorkerId, id: JobId)
    requires NamesOk(s) && PcOk(s, PcOf(s, w))
    ensures OwnershipMatchesLog(s, w, id)
  {
    var pc := PcOf(s, w);
    if pc.SaveGet? || pc.CompleteGet? || pc.FailGet? { ReadOwnership(s, w, id); }
    else if pc.AcquireMget? || pc.AcquireEval? { AcquireOwnership(s, w, id); }
    else if pc.SaveSet? || pc.CompleteSet? || pc.FailSet? { SettleOwnership(s, w, id); }
    else { hide Sort, DueRecords, Eval, NamesOk, WriteRecord, FailedAttempt; }
  }

  lemma SettleOwnership(s: State, w: WorkerId, id: JobId)
    requires PcOk(s, PcOf(s, w)) && (PcOf(s, w).SaveSet? || PcOf(s, w).CompleteSet? || PcOf(s, w).FailSet?)
    ensures OwnershipMatchesLog(s, w, id)
  {
    hide Sort, DueRecords, Eval, FailedAttempt;
  }

  /**
    The history is what the workers did: a worker becomes owner exactly in a command that logs its
    acquisition, which needs a pending record nobody owns; it stops being owner exactly in a
    command that logs how it settled the job; no other step logs anything or moves ownership.
   */
  lemma HistoryRecordsOwnership(s: State, t: State, step: Step, w: WorkerId, id: JobId)
    requires Inv(s) && Next(s, t, step)
    ensures !Owns(PcOf(s, w), id) && Owns(PcOf(t, w), id) <==> t.history == s.history + [Acquired(w, id)]
    ensures t.history == s.history + [Acquired(w, id)] ==>
      StatusOf(s, id) == Some(Pending) && forall v :: !Owns(PcOf(s, v), id)
    ensures Owns(PcOf(s, w), id) && !Owns(PcOf(t, w), id) <==>
      t.history == s.history + [Requeued(w, id)] || t.history == s.history + [Finished(w, id)]
  {
    Differ(s.history);
    if step.Command? {
      var c := step.w;
      CommandLogs(s, c);
      assert PcOk(s, PcOf(s, c));
      CommandOwnership(s, c, id);
      if w != c { MovedBy(s, c, w); }
      if LoggedBy(s, c) == Some(Acquired(w, id)) {
        forall v ensures !Owns(PcOf(s, v), id) { assert PcOk(s, PcOf(s, v)); }
      }
    } else {
      QuietOwnership(s, t, step, w, id);
    }
  }

  lemma MovedBy(s: State, c: WorkerId, w: WorkerId)
    requires w != c
    ensures PcOf(RunCommand(s, c), w) == PcOf(s, w)
    ensures LoggedBy(s, c).Some? ==> LoggedBy(s, c).value.worker == c
  {
    match PcOf(s, c)
    case AcquireEval(_, _, _, _) =>
    case AcquireMget(_, _, _, _) =>
    case _ =>
  }

  lemma QuietOwnership(s: State, t: State, step: Step, w: WorkerId, id: JobId)
    requires Inv(s) && Next(s, t, step) && !step.Command?
    ensures Owns(PcOf(t, w), id) == Owns(PcOf(s, w), id) && t.history == s.history
  {
    assert PcOk(s, PcOf(s, w));
  }

  lemma Differ(h: seq<Event>)
    ensures forall e {:trigger h + [e]} :: h != h + [e]
    ensures forall e, f {:trigger h + [e], h + [f]} :: h + [e] == h + [f] ==> e == f
  {
    forall e ensures h != h + [e] { assert |h + [e]| == |h| + 1; }
    forall e, f | h + [e] == h + [f] ensures e == f { assert (h + [e])[|h|] == (h + [f])[|h|]; }
  }

  /** Two acquisitions of one job are separated by a retry of the first owner. */
  lemma NoSecondAcquireWithoutRetry(states: seq<State>, steps: seq<Step>, i: nat, a: nat, b: nat)
    requires Run(states, steps) && i < |states|
    requires a < b < |states[i].history|
    requires states[i].history[a].Acquired? && states[i].history[b].Acquired?
    requires states[i].history[a].id == states[i].history[b].id
    ensures exists k :: (a < k < b
        && states[i].history[k] == Requeued(states[i].history[a].worker, states[i].history[a].id))
  {
    InvRun(states, steps, i);
    var k := RetryBetween(states[i].history, a, b);
  }

  /** Nothing legal follows a finished job. */
  lemma {:induction false} FinishedStays(h: seq<Event>, k: nat, n: nat)
    requires LegalHistory(h) && k < n <= |h| && h[k].Finished?
    ensures Last(h[..n], h[k].id) == Some(h[k])
    decreases n
  {
    assert h[..n - 1] + [h[n - 1]] == h[..n];
    LastAppend(h[..n - 1], h[n - 1]);
    if k < n - 1 {
      FinishedStays(h, k, n - 1);
      assert Legal(Last(h[..n - 1], h[n - 1].id), h[n - 1]);
    }
  }

  /** Between two events about a job lies, or is, the one directly after the first. */
  lemma {:induction false} NextAbout(h: seq<Event>, a: nat, b: nat) returns (k: nat)
    requires a < b < |h| && h[a].id == h[b].id
    ensures a < k <= b && h[k].id == h[a].id && Last(h[..k], h[a].id) == Some(h[a])
    decreases b
  {
    assert h[..b - 1] + [h[b - 1]] == h[..b];
    LastAppend(h[..b - 1], h[b - 1]);
    if Last(h[..b], h[a].id) == Some(h[a]) { k := b; } else {
      var e := LastIndex(h, a, b);
      k := NextAbout(h, a, e);
    }
  }

  lemma {:induction false} LastIndex(h: seq<Event>, a: nat, b: nat) returns (e: nat)
    requires a < b <= |h| && Last(h[..b], h[a].id) != Some(h[a])
    ensures a < e < b && h[e].id == h[a].id
    decreases b
  {
    assert h[..b - 1] + [h[b - 1]] == h[..b];
    LastAppend(h[..b - 1], h[b - 1]);
    if h[b - 1].id == h[a].id { e := b - 1; } else { e := LastIndex(h, a, b - 1); }
  }

  lemma RetryBetween(h: seq<Event>, a: nat, b: nat) returns (k: nat)
    requires LegalHistory(h) && a < b < |h|
    requires h[a].Acquired? && h[b].Acquired? && h[a].id == h[b].id
    ensures a < k < b && h[k] == Requeued(h[a].worker, h[a].id)
  {
    k := NextAbout(h, a, b);
    assert Legal(Last(h[..k], h[k].id), h[k]);
    assert Legal(Last(h[..b], h[b].id), h[b]);
    if h[k].Finished? { FinishedStays(h, k, b); }
  }

  /** Completed and failed are final: no later command of any worker touches the record. */
  lemma FinalStep(s: State, t: State, step: Step, id: JobId)
    requires Inv(s) && Next(s, t, step)
    requires StatusOf(s, id) == Some(Completed) || StatusOf(s, id) == Some(Failed)
    ensures id in s.records && id in t.records && t.records[id] == s.records[id] && StatusOf(t, id) == StatusOf(s, id)
  {
    if step.Command? {
      assert PcOk(s, PcOf(s, step.w));
      hide Inv, RunCommand;
      FinalCommand(s, step.w, id);
    } else {
      hide Inv, RunCommand, RangeReply, Fresh, AfterFailure;
    }
  }

  lemma FinalCommand(s: State, w: WorkerId, id: JobId)
    requires NamesOk(s) && PcOk(s, PcOf(s, w))
    requires StatusOf(s, id) == Some(Completed) || StatusOf(s, id) == Some(Failed)
    ensures var t := RunCommand(s, w); id in t.records && t.records[id] == s.records[id]
  {
    hide Sort, DueRecords, FailedAttempt;
    var pc := PcOf(s, w);
    if pc.SaveSet? || pc.CompleteSet? || pc.FailSet? {
      assert pc.job.id == id ==> Owns(pc, id) || Enqueues(pc, id);
    }
  }

  lemma {:induction false} FinishedIsFinal(states: seq<State>, steps: seq<Step>, i: nat, j: nat, id: JobId)
    requires Run(states, steps) && i <= j < |states|
    requires StatusOf(states[i], id) == Some(Completed) || StatusOf(states[i], id) == Some(Failed)
    ensures id in states[i].records && id in states[j].records && states[j].records[id] == states[i].records[id]
    ensures StatusOf(states[j], id) == StatusOf(states[i], id)
    decreases j
  {
    if i < j {
      StepOf(states, steps, j - 1);
      hide *;
      FinishedIsFinal(states, steps, i, j - 1, id);
      InvRun(states, steps, j - 1);
      FinalStep(states[j - 1], states[j], steps[j - 1], id);
    } else {
      hide Run;
    }
  }

  lemma StepOf(states: seq<State>, steps: seq<Step>, i: nat)
    requires Run(states, steps) && i + 1 < |states|
    ensures i < |steps| && Next(states[i], states[i + 1], steps[i])
  {
    hide Next;
  }

  // ---- no pending job is lost ------------------------------------------------------------

  /** Every pending record is in its queue's index, or some worker is on its way to put it there. */
  lemma NoPendingJobLost(states: seq<State>, steps: seq<Step>, i: nat, id: JobId)
    requires Run(states, steps) && i < |states|
    requires StatusOf(states[i], id) == Some(Pending)
    ensures var s := states[i];
      id in Zset(s, s.records[id].queue) || BeingIndexed(s, id, s.records[id].queue)
  {
    InvRun(states, steps, i);
  }

  /** An index entry whose record is not pending and due is passed over by the lock script. */
  lemma StaleEntryIsNeverAcquired(s: State, w: WorkerId)
    requires PcOf(s, w).AcquireEval? && PcOf(s, w).candidates != []
    requires var id := PcOf(s, w).candidates[0].id;
      StatusOf(s, id) != Some(Pending) || s.records[id].runAt > PcOf(s, w).now
    ensures RunCommand(s, w) == Move(s, w, AfterMiss(PcOf(s, w)))
  {}

  // ---- the index is never late -----------------------------------------------------------

  predicate LateIndex(pc: Pc, id: JobId) {
    pc.FailIndex? && pc.job.id == id && pc.job.status == Pending
  }

  /** No index entry of the job, present or on its way, is scored above `bound`. */
  ghost predicate Bounded(s: State, id: JobId, bound: int) {
    && (forall q :: id in Zset(s, q) ==> 0 <= Zset(s, q)[id] <= bound)
    && (forall w :: LateIndex(PcOf(s, w), id) ==> 0 <= PcOf(s, w).job.runAt <= bound)
  }

  /** All schedulers retry after the same delay, and nothing is enqueued into the past. */
  predicate Uniform(s: State, step: Step, delay: int) {
    match step
    case HandlerFailed(_, _, _, retryDelay) => retryDelay == delay
    case Enqueue(_, job) => job.runAt >= s.clock
    case _ => true
  }

  ghost predicate PcTimely(s: State, pc: Pc, delay: int) {
    match pc
    case FailSet(job) => job.status == Pending ==> Bounded(s, job.id, job.runAt) && job.runAt >= 0
    case FailGet(_, _, retryInMs) => retryInMs.Some? ==> retryInMs.value == delay
    case SaveGet(job) => job.status == Pending ==> job.runAt >= 0
    case SaveSet(job) => job.status == Pending ==> job.runAt >= 0
    case AcquireRange(_, now, _) => now <= s.clock
    case AcquireMget(_, now, _, _) => now <= s.clock
    case AcquireEval(_, now, _, _) => now <= s.clock
    case _ => true
  }

  ghost predicate Timely(s: State, delay: int) {
    && s.clock >= 0
    && (forall id :: StatusOf(s, id) == Some(Pending) ==> s.records[id].runAt >= 0 && Bounded(s, id, s.records[id].runAt))
    && (forall id :: StatusOf(s, id) == Some(Running) ==> Bounded(s, id, s.clock + delay))
    && (forall w :: PcTimely(s, PcOf(s, w), delay))
  }

  // The same three shapes of step as for the invariant: quiet moves, index writes, record writes.

  lemma BoundedMoved(s: State, t: State, w: WorkerId, id: JobId, bound: int)
    requires Bounded(s, id, bound) && t.workers == s.workers[w := PcOf(t, w)] && t.zsets == s.zsets
    requires LateIndex(PcOf(t, w), id) ==> 0 <= PcOf(t, w).job.runAt <= bound
    ensures Bounded(t, id, bound)
  {
    Moved(s, t, w, PcOf(t, w));
    assert forall q :: Zset(t, q) == Zset(s, q);
  }

  lemma PcTimelyMoved(s: State, t: State, pc: Pc, delay: int)
    requires PcTimely(s, pc, delay) && s.clock <= t.clock
    requires forall id, b :: Bounded(s, id, b) ==> Bounded(t, id, b)
    ensures PcTimely(t, pc, delay)
  {}

  lemma TimelyQuiet(s: State, t: State, w: WorkerId, delay: int)
    requires Timely(s, delay) && t.workers == s.workers[w := PcOf(t, w)]
    requires t.records == s.records && t.zsets == s.zsets && s.clock == t.clock
    requires forall id :: !LateIndex(PcOf(t, w), id)
    requires PcTimely(t, PcOf(t, w), delay)
    ensures Timely(t, delay)
  {
    Moved(s, t, w, PcOf(t, w));
    forall id, b | Bounded(s, id, b) ensures Bounded(t, id, b) { BoundedMoved(s, t, w, id, b); }
    assert forall id :: StatusOf(t, id) == StatusOf(s, id);
    forall v | v != w ensures PcTimely(t, PcOf(t, v), delay) { PcTimelyMoved(s, t, PcOf(s, v), delay); }
  }

  lemma TimelyIndex(s: State, t: State, w: WorkerId, q: QueueName, job: Job, delay: int)
    requires Inv(s) && Timely(s, delay) && t == Move(ZAdd(s, q, job.runAt, job.id), w, Idle)
    requires Indexes(PcOf(s, w), job.id, q) && job == PcOf(s, w).job
    ensures Timely(t, delay)
  {
    assert PcOk(s, PcOf(s, w));
    Moved(s, t, w, Idle);
    IndexBounds(s, t, w, q, job);
    forall id ensures StatusOf(t, id) == StatusOf(s, id) {}
    if PcOf(s, w).FailIndex? {
      assert LateIndex(PcOf(s, w), job.id);
      assert forall b :: Bounded(s, job.id, b) ==> 0 <= job.runAt <= b;
      hide PcOk, Inv, Bounded;
      forall v | v != w ensures PcTimely(t, PcOf(t, v), delay) { PcTimelyMoved(s, t, PcOf(s, v), delay); }
    } else {
      TimelyFirstIndex(s, t, w, q, job, delay);
    }
  }

  /** The first time a job is indexed nobody else can be about to write its record. */
  lemma TimelyFirstIndex(s: State, t: State, w: WorkerId, q: QueueName, job: Job, delay: int)
    requires Inv(s) && Timely(s, delay) && t == Move(ZAdd(s, q, job.runAt, job.id), w, Idle)
    requires IndexesNew(PcOf(s, w), job.id) && job == PcOf(s, w).job
    ensures Timely(t, delay)
  {
    assert PcOk(s, PcOf(s, w));
    Moved(s, t, w, Idle);
    IndexBounds(s, t, w, q, job);
    forall id ensures StatusOf(t, id) == StatusOf(s, id) {}
    forall v | v != w && PcOf(s, v).FailSet? ensures PcOf(s, v).job.id != job.id {
      assert PcOk(s, PcOf(s, v));
      assert Owns(PcOf(s, v), PcOf(s, v).job.id);
    }
    hide PcOk, Inv, Bounded;
    forall v | v != w ensures PcTimely(t, PcOf(t, v), delay) { assert PcTimely(s, PcOf(s, v), delay); }
  }

  lemma IndexBounds(s: State, t: State, w: WorkerId, q: QueueName, job: Job)
    requires t == Move(ZAdd(s, q, job.runAt, job.id), w, Idle)
    ensures forall id, b :: Bounded(s, id, b) && (id == job.id ==> 0 <= job.runAt <= b) ==> Bounded(t, id, b)
  {
    Moved(s, t, w, Idle);
    ZsetsMoved(s, t, q, Zset(s, q)[job.id := job.runAt]);
  }

  lemma TimelyUnindex(s: State, t: State, w: WorkerId, q: QueueName, id: JobId, delay: int)
    requires Timely(s, delay) && t.workers == s.workers[w := PcOf(t, w)] && t.zsets == s.zsets[q := Zset(s, q) - {id}]
    requires t.records == s.records && s.clock == t.clock
    requires forall i :: !LateIndex(PcOf(t, w), i)
    requires PcTimely(t, PcOf(t, w), delay)
    ensures Timely(t, delay)
  {
    Moved(s, t, w, PcOf(t, w));
    ZsetsMoved(s, t, q, Zset(s, q) - {id});
    assert forall i :: StatusOf(t, i) == StatusOf(s, i);
    forall v | v != w ensures PcTimely(t, PcOf(t, v), delay) { PcTimelyMoved(s, t, PcOf(s, v), delay); }
  }

  /** A record write keeps the bounds when the written record itself is bounded. */
  lemma TimelyWrite(s: State, t: State, w: WorkerId, id: JobId, delay: int)
    requires Timely(s, delay) && t.workers == s.workers[w := PcOf(t, w)] && s.clock == t.clock
    requires id in t.records && t.records == s.records[id := t.records[id]]
    requires forall q, i :: i in Zset(t, q) ==> i in Zset(s, q) && Zset(t, q)[i] == Zset(s, q)[i]
    requires forall i :: LateIndex(PcOf(t, w), i) ==> i == id && t.records[id].status == Pending && PcOf(t, w).job == t.records[id]
    requires t.records[id].status == Pending ==> t.records[id].runAt >= 0 && Bounded(s, id, t.records[id].runAt)
    requires t.records[id].status == Running ==> Bounded(s, id, s.clock + delay)
    requires PcTimely(t, PcOf(t, w), delay)
    requires forall v :: v != w ==> !(PcOf(s, v).FailSet? && PcOf(s, v).job.id == id)
    ensures Timely(t, delay)
  {
    Moved(s, t, w, PcOf(t, w));
    forall i, b | Bounded(s, i, b) && (i != id || t.records[id].status != Pending || t.records[id].runAt <= b)
      ensures Bounded(t, i, b) {}
    assert forall i :: i != id ==> StatusOf(t, i) == StatusOf(s, i);
    forall v | v != w ensures PcTimely(t, PcOf(t, v), delay) { assert PcTimely(s, PcOf(s, v), delay); }
  }

  lemma TimelyCommand(s: State, w: WorkerId, delay: int)
    requires delay >= 0 && Inv(s) && Timely(s, delay)
    ensures Timely(RunCommand(s, w), delay)
  {
    match PcOf(s, w)
    case SaveZremOld(job, q) => TimelyIndexCommand(s, w, delay);
    case CompleteZrem(job) => TimelyIndexCommand(s, w, delay);
    case SaveIndex(job) => TimelyIndexCommand(s, w, delay);
    case FailIndex(job) => TimelyIndexCommand(s, w, delay);
    case SaveSet(job) => TimelySaveSet(s, w, delay);
    case CompleteSet(job) => TimelySettle(s, w, delay);
    case FailSet(job) => TimelySettle(s, w, delay);
    case AcquireEval(_, _, _, _) => TimelyEval(s, w, delay);
    case FailGet(_, _, _) => TimelyFailGet(s, w, delay);
    case Idle =>
    case AcquireRange(_, _, _) =>
    case Handling(_) =>
    case _ => TimelyQuietCommand(s, w, delay);
  }

  lemma TimelyIndexCommand(s: State, w: WorkerId, delay: int)
    requires Inv(s) && Timely(s, delay)
    requires var pc := PcOf(s, w); pc.SaveZremOld? || pc.CompleteZrem? || pc.SaveIndex? || pc.FailIndex?
    ensures Timely(RunCommand(s, w), delay)
  {
    var t := RunCommand(s, w);
    var pc := PcOf(s, w);
    assert PcOk(s, pc);
    if pc.SaveZremOld? { TimelyUnindex(s, t, w, pc.oldQueue, pc.job.id, delay); }
    else if !pc.CompleteZrem? && pc.job.status == Pending { TimelyIndex(s, t, w, pc.job.queue, pc.job, delay); }
    else { TimelyUnindex(s, t, w, pc.job.queue, pc.job.id, delay); }
  }

  lemma TimelyQuietCommand(s: State, w: WorkerId, delay: int)
    requires Inv(s) && Timely(s, delay)
    requires var pc := PcOf(s, w);
      pc.SaveGet? || pc.SaveSremOld? || pc.SaveSaddAll? || pc.SaveSaddQueue? || pc.AcquireMget? || pc.CompleteGet?
    ensures Timely(RunCommand(s, w), delay)
  {
    assert PcTimely(s, PcOf(s, w), delay) && PcOk(s, PcOf(s, w));
    TimelyQuiet(s, RunCommand(s, w), w, delay);
  }

  lemma TimelyFailGet(s: State, w: WorkerId, delay: int)
    requires delay >= 0 && Inv(s) && Timely(s, delay) && PcOf(s, w).FailGet?
    ensures Timely(RunCommand(s, w), delay)
  {
    var t := RunCommand(s, w);
    assert PcOk(s, PcOf(s, w)) && PcTimely(s, PcOf(s, w), delay);
    assert Owns(PcOf(s, w), PcOf(s, w).id);
    BoundedMoved(s, t, w, PcOf(s, w).id, s.clock + delay);
    TimelyQuiet(s, t, w, delay);
  }

  lemma TimelySaveSet(s: State, w: WorkerId, delay: int)
    requires delay >= 0 && Inv(s) && Timely(s, delay) && PcOf(s, w).SaveSet?
    ensures Timely(RunCommand(s, w), delay)
  {
    var job := PcOf(s, w).job;
    assert PcOk(s, PcOf(s, w)) && PcTimely(s, PcOf(s, w), delay);
    if job.status == Pending {
      assert Enqueues(PcOf(s, w), job.id);
      NewRecordUnseen(s, job.id);
    } else {
      assert Owns(PcOf(s, w), job.id);
    }
    forall v | v != w ensures !(PcOf(s, v).FailSet? && PcOf(s, v).job.id == job.id) {
      assert PcOf(s, v).FailSet? ==> Owns(PcOf(s, v), PcOf(s, v).job.id);
    }
    TimelyWrite(s, RunCommand(s, w), w, job.id, delay);
  }

  lemma TimelySettle(s: State, w: WorkerId, delay: int)
    requires delay >= 0 && Inv(s) && Timely(s, delay) && (PcOf(s, w).CompleteSet? || PcOf(s, w).FailSet?)
    ensures Timely(RunCommand(s, w), delay)
  {
    var job := PcOf(s, w).job;
    assert PcOk(s, PcOf(s, w)) && PcTimely(s, PcOf(s, w), delay) && Owns(PcOf(s, w), job.id);
    forall v | v != w ensures !(PcOf(s, v).FailSet? && PcOf(s, v).job.id == job.id) {
      assert PcOf(s, v).FailSet? ==> Owns(PcOf(s, v), PcOf(s, v).job.id);
    }
    TimelyWrite(s, RunCommand(s, w), w, job.id, delay);
  }

  lemma TimelyEval(s: State, w: WorkerId, delay: int)
    requires delay >= 0 && Inv(s) && Timely(s, delay) && PcOf(s, w).AcquireEval?
    ensures Timely(RunCommand(s, w), delay)
  {
    var t := RunCommand(s, w);
    var pc := PcOf(s, w);
    assert PcOk(s, pc) && PcTimely(s, pc, delay);
    hide HistoryOk, Findable, NewUnseen, Exclusive;
    if Lockable(s, pc) {
      var id := pc.candidates[0].id;
      forall v ensures !Owns(PcOf(s, v), id) { assert PcOk(s, PcOf(s, v)); }
      forall v | v != w ensures !(PcOf(s, v).FailSet? && PcOf(s, v).job.id == id) {
        assert PcOf(s, v).FailSet? ==> Owns(PcOf(s, v), PcOf(s, v).job.id);
      }
      ZsetsMoved(s, t, pc.queue, Zset(s, pc.queue) - {id});
      TimelyWrite(s, t, w, id, delay);
    } else {
      TimelyQuiet(s, t, w, delay);
    }
  }

  lemma TimelyNext(s: State, t: State, step: Step, delay: int)
    requires delay >= 0 && Inv(s) && Timely(s, delay) && Next(s, t, step) && Uniform(s, step, delay)
    ensures Timely(t, delay)
  {
    match step
    case Tick(clock) => TimelyTick(s, t, clock, delay);
    case Command(w) => hide Inv, Timely, RunCommand; TimelyCommand(s, w, delay);
    case _ =>
      hide Inv, Bounded;
      assert PcTimely(s, PcOf(s, step.w), delay);
      TimelyQuiet(s, t, step.w, delay);
  }

  lemma TimelyTick(s: State, t: State, clock: int, delay: int)
    requires delay >= 0 && Timely(s, delay) && Next(s, t, Tick(clock))
    ensures Timely(t, delay)
  {
    assert forall v :: PcOf(t, v) == PcOf(s, v);
    assert forall q :: Zset(t, q) == Zset(s, q);
    assert forall id :: StatusOf(t, id) == StatusOf(s, id);
    forall v ensures PcTimely(t, PcOf(t, v), delay) { PcTimelyMoved(s, t, PcOf(s, v), delay); }
  }

  ghost predicate UniformRun(states: seq<State>, steps: seq<Step>, delay: int) {
    && Run(states, steps) && states[0].clock >= 0
    && forall i :: 0 <= i < |steps| ==> Uniform(states[i], steps[i], delay)
  }

  lemma UniformStep(states: seq<State>, steps: seq<Step>, delay: int, i: nat)
    requires UniformRun(states, steps, delay) && i + 1 < |states|
    ensures i < |steps| && Run(states, steps) && Next(states[i], states[i + 1], steps[i]) && Uniform(states[i], steps[i], delay)
  {
    hide Next, Uniform;
  }

  lemma {:induction false} TimelyRun(states: seq<State>, steps: seq<Step>, delay: int, i: nat)
    requires delay >= 0 && UniformRun(states, steps, delay) && i < |states|
    ensures Timely(states[i], delay)
  {
    if i > 0 {
      UniformStep(states, steps, delay, i - 1);
      hide *;
      TimelyRun(states, steps, delay, i - 1);
      InvRun(states, steps, i - 1);
      TimelyNext(states[i - 1], states[i], steps[i - 1], delay);
    } else {
      hide Next, Inv;
    }
  }

  /**
    A due job is always found: whatever late ZADDs did to its score, the next ZRANGEBYSCORE of its
    queue names it, unless its writer is still about to index it.
   */
  lemma DueJobIsVisible(states: seq<State>, steps: seq<Step>, delay: int, i: nat, id: JobId, ids: seq<JobId>)
    requires delay >= 0 && UniformRun(states, steps, delay) && i < |states|
    requires StatusOf(states[i], id) == Some(Pending) && states[i].records[id].runAt <= states[i].clock
    requires !BeingIndexed(states[i], id, states[i].records[id].queue)
    requires RangeReply(Zset(states[i], states[i].records[id].queue), 0, states[i].clock, ids)
    ensures id in ids
  {
    InvRun(states, steps, i);
    TimelyRun(states, steps, delay, i);
  }
}
