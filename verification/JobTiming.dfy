/** When jobs become due: delays of new jobs and of retries, over whole runs of the in-memory store. */
module JobTiming {
  import opened OptionType
  import opened JobRecord
  import opened MemoryJobs
  import opened JobRuns
  import opened Text

  /** At this event a worker took the job, which was due by then. */
  ghost predicate TakenAt(states: seq<World>, events: seq<Event>, k: nat, id: JobId, queue: QueueName, runAt: int) {
    && k < |events| && k + 1 < |states| && events[k].Acquire?
    && events[k].worker !in states[k].held && events[k].worker in states[k + 1].held
    && states[k + 1].held[events[k].worker].job.id == id
    && events[k].config.queue == queue && states[k].now >= runAt
  }

  ghost predicate StaysOrIsTaken(w: World, e: Event, v: World, id: JobId)
    requires id in w.table.jobs
  {
    || (id in v.table.jobs && v.table.jobs[id] == w.table.jobs[id])
    || (e.Acquire? && e.worker !in w.held && e.worker in v.held && v.held[e.worker].job.id == id
        && w.table.jobs[id].queue == e.config.queue && w.table.jobs[id].runAt <= w.now)
  }

  lemma AcquireStays(w: World, e: Event, id: JobId)
    requires Inv(w) && Enabled(w, e) && e.Acquire? && id in w.table.jobs && w.table.jobs[id].status == Pending
    ensures StaysOrIsTaken(w, e, Next(w, e), id)
  {
    hide *;
    ValidTable(w);
    if Next(w, e) != w {
      var taken := AcquireIs(w, e);
      var k: nat :| k < |w.table.order| && w.table.order[k] == taken && Picked(w.table, e.config.queue, w.now, k);
      PickedIsDue(w.table, e.config.queue, w.now, k);
      IdleBefore(w, e);
      assert Next(w, e).held[e.worker].job.id == taken by { LockKeepsId(w.table.jobs[taken], w.now + e.config.lockMs); }
    }
    StaysIs(w, e, Next(w, e), id);
  }

  lemma ValidTable(w: World)
    requires Inv(w)
    ensures Valid(w.table)
  {}

  lemma PickedIsDue(t: Table, queue: QueueName, now: int, k: nat)
    requires Valid(t) && Picked(t, queue, now, k)
    ensures k < |t.order| && t.order[k] in t.jobs
    ensures var job := t.jobs[t.order[k]]; job.queue == queue && job.runAt <= now
  {}

  lemma IdleBefore(w: World, e: Event)
    requires e.Acquire? && Enabled(w, e)
    ensures e.worker !in w.held
  {}

  lemma LockKeepsId(job: Job, until: int)
    ensures Lock(job, until).id == job.id
  {}

  lemma StaysIs(w: World, e: Event, v: World, id: JobId)
    requires id in w.table.jobs
    requires (id in v.table.jobs && v.table.jobs[id] == w.table.jobs[id])
      || (e.Acquire? && e.worker !in w.held && e.worker in v.held && v.held[e.worker].job.id == id
          && w.table.jobs[id].queue == e.config.queue && w.table.jobs[id].runAt <= w.now)
    ensures StaysOrIsTaken(w, e, v, id)
  {}

  lemma WorkerStays(w: World, e: Event, id: JobId)
    requires Inv(w) && Enabled(w, e) && (e.Begin? || e.Succeed? || e.Fail?) && id in w.table.jobs && w.table.jobs[id].status == Pending
    ensures StaysOrIsTaken(w, e, Next(w, e), id)
  {
    assert Holds(w, e.worker);
    if e.Fail? { FailIs(w, e); }
    hide Stories, HandleFailure, AfterFailure, FailureRecord, Valid;
  }

  lemma QuietStays(w: World, e: Event, id: JobId)
    requires Inv(w) && Enabled(w, e) && (e.Clock? || e.Enqueue? || e.Purge?) && id in w.table.jobs && w.table.jobs[id].status == Pending
    ensures StaysOrIsTaken(w, e, Next(w, e), id)
  {
    if e.Purge? { PurgeIs(w, e); }
    if e.Enqueue? { StoryOf(w, id); }
    hide Stories, Kept, TakeNext, HandleFailure;
  }

  /** A pending record stays as it is until a worker takes the job. */
  lemma PendingStays(w: World, e: Event, id: JobId)
    requires Inv(w) && Enabled(w, e) && id in w.table.jobs && w.table.jobs[id].status == Pending
    ensures StaysOrIsTaken(w, e, Next(w, e), id)
  {
    hide *;
    match e
    case Acquire(_, _) => AcquireStays(w, e, id);
    case Begin(_) => WorkerStays(w, e, id);
    case Succeed(_) => WorkerStays(w, e, id);
    case Fail(_, _) => WorkerStays(w, e, id);
    case _ => QuietStays(w, e, id);
  }

  ghost predicate TakenBetween(states: seq<World>, events: seq<Event>, i: nat, j: nat, id: JobId, queue: QueueName, runAt: int) {
    exists k :: i <= k < j && TakenAt(states, events, k, id, queue, runAt)
  }

  lemma TakenLater(states: seq<World>, events: seq<Event>, i: nat, j: nat, id: JobId, queue: QueueName, runAt: int)
    requires TakenBetween(states, events, i, j, id, queue, runAt)
    ensures TakenBetween(states, events, i, j + 1, id, queue, runAt)
  {
    hide TakenAt;
  }

  /** From one moment to any later one, a pending job is untouched, or was taken in between: in its queue, and not before it was due. */
  lemma {:induction false} PendingWaits(states: seq<World>, events: seq<Event>, i: nat, j: nat, id: JobId)
    requires Run(states, events) && i <= j <= |events| && id in states[i].table.jobs && states[i].table.jobs[id].status == Pending
    ensures var job := states[i].table.jobs[id];
      (id in states[j].table.jobs && states[j].table.jobs[id] == job) || TakenBetween(states, events, i, j, id, job.queue, job.runAt)
    decreases j
  {
    if i < j {
      hide *;
      PendingWaits(states, events, i, j - 1, id);
      var job, n := states[i].table.jobs[id], j - 1;
      if TakenBetween(states, events, i, n, id, job.queue, job.runAt) {
        TakenLater(states, events, i, n, id, job.queue, job.runAt);
      } else {
        InvRun(states, events, n);
        RunStep(states, events, n);
        PendingStays(states[n], events[n], id);
        TakenNow(states, events, i, n, id, job);
      }
    }
  }

  lemma TakenNow(states: seq<World>, events: seq<Event>, i: nat, n: nat, id: JobId, job: Job)
    requires i <= n < |events| && n + 1 < |states| && id in states[n].table.jobs && states[n].table.jobs[id] == job
    requires StaysOrIsTaken(states[n], events[n], states[n + 1], id)
    ensures (id in states[n + 1].table.jobs && states[n + 1].table.jobs[id] == job) || TakenBetween(states, events, i, n + 1, id, job.queue, job.runAt)
  {
    if !(id in states[n + 1].table.jobs && states[n + 1].table.jobs[id] == job) {
      assert TakenAt(states, events, n, id, job.queue, job.runAt);
    }
  }

  /**
    A failed attempt that is to be retried: the record is pending again with one more attempt, due at the
    time of the failure plus the retry delay and at no time before; and it stays so until it is taken,
    which is not before then.
   */
  lemma RetryWaitsItsDelay(states: seq<World>, events: seq<Event>, i: nat, j: nat, worker: nat, error: string)
    requires Run(states, events) && i < j <= |events| && events[i] == Fail(worker, error) && worker in states[i].held
    requires states[i].held[worker].job.attempts + 1 < states[i].held[worker].job.maxAttempts
    ensures var h, jobs := states[i].held[worker], states[i + 1].table.jobs;
      var id, due := h.job.id, states[i].now + h.config.retryMs;
      && id in jobs && jobs[id].status == Pending && jobs[id].runAt == due && jobs[id].queue == h.job.queue
      && jobs[id].attempts == h.job.attempts + 1 && jobs[id].error == Some(error)
      && ((id in states[j].table.jobs && states[j].table.jobs[id] == jobs[id]
           && (Due(states[j].table.jobs[id], h.job.queue, states[j].now) <==> states[j].now >= due))
          || TakenBetween(states, events, i + 1, j, id, h.job.queue, due))
  {
    InvRun(states, events, i);
    RunStep(states, events, i);
    var h := states[i].held[worker];
    assert Holds(states[i], worker);
    FailureIs(states[i], worker, error);
    PendingWaits(states, events, i + 1, j, h.job.id);
    hide Run, Inv, TakenBetween;
  }

  /** A failed attempt that exhausts the job: it is failed for good, moved to the dead-letter queue if there is one. */
  lemma ExhaustedJobFails(w: World, worker: nat, error: string)
    requires Inv(w) && worker in w.held && w.held[worker].job.attempts + 1 >= w.held[worker].job.maxAttempts
    ensures var h, jobs := w.held[worker], Next(w, Fail(worker, error)).table.jobs;
      && h.job.id in jobs && jobs[h.job.id].status == Failed && jobs[h.job.id].attempts == h.job.attempts + 1
      && jobs[h.job.id].error == Some(error)
      && jobs[h.job.id].queue == if h.config.dlqQueue.Some? then h.config.dlqQueue.value else h.job.queue
  {
    assert Holds(w, worker);
    FailureIs(w, worker, error);
    hide Stories, Owned, Valid;
  }

  /** A new job is due its delay after it was enqueued, at no time before, and waits untouched until it is taken. */
  lemma NewJobWaitsItsDelay(states: seq<World>, events: seq<Event>, i: nat, j: nat)
    requires Run(states, events) && i < j <= |events| && events[i].Enqueue?
    ensures var e, jobs := events[i], states[i + 1].table.jobs;
      var due := states[i].now + e.delayMs;
      && e.id in jobs && jobs[e.id].status == Pending && jobs[e.id].runAt == due && jobs[e.id].queue == e.queue
      && jobs[e.id].attempts == 0 && jobs[e.id].priority == e.priority && jobs[e.id].maxAttempts == e.maxAttempts
      && ((e.id in states[j].table.jobs && states[j].table.jobs[e.id] == jobs[e.id]
           && (Due(states[j].table.jobs[e.id], e.queue, states[j].now) <==> states[j].now >= due))
          || TakenBetween(states, events, i + 1, j, e.id, e.queue, due))
  {
    RunStep(states, events, i);
    PendingWaits(states, events, i + 1, j, events[i].id);
    hide Run, TakenBetween;
  }
}
