/** What every run of jobs over the in-memory store guarantees. */
module JobTheorems {
  import opened OptionType
  import opened JobRecord
  import opened MemoryJobs
  import opened JobRuns
  import opened Text

  lemma EnqueueAdds(w: World, e: Event)
    requires Valid(w.table) && Enabled(w, e) && e.Enqueue?
    ensures e.id !in w.original && Next(w, e).original == w.original[e.id := NewJob(e, w.now)]
    ensures Next(w, e).taken == w.taken
  {
    hide TakeNext, HandleFailure, Purged, Save;
  }

  /**
    At every moment of every run, for every job ever enqueued: its handler was started at most
    max(1, maxAttempts) times; while it is stored, `attempts` is the number of its failures, and it
    is failed exactly when they have reached that limit; and nobody but one worker holds it while it runs.
   */
  lemma HandlerStartsAreBounded(states: seq<World>, events: seq<Event>, i: nat, id: JobId)
    requires Run(states, events) && i <= |events| && id in states[i].original
    ensures var w := states[i];
      && Count(w.starts, id) <= (if w.original[id].maxAttempts > 1 then w.original[id].maxAttempts else 1)
      && (id in w.table.jobs ==>
            var job := w.table.jobs[id];
            && job.attempts == Count(w.failures, id)
            && job.maxAttempts == w.original[id].maxAttempts
            && (job.status == Failed <==> job.attempts == Limit(job))
            && (job.status == Running <==> Worked(w, id)))
      && (forall k, l :: k in w.held && l in w.held && w.held[k].job.id == id == w.held[l].job.id ==> k == l)
  {
    InvRun(states, events, i);
    var w := states[i];
    if id in w.table.jobs {
      StoryOf(w, id);
      if Worked(w, id) {
        var k :| k in w.held && w.held[k].job.id == id;
        assert Holds(w, k);
      }
    }
  }

  // ---- finished jobs stay finished ------------------------------------------------------------------------

  predicate Finished(job: Job) { job.status.Completed? || job.status.Failed? }

  /** The record stays as it is, or a purge removes it for good. */
  ghost predicate Settled(w: World, id: JobId, job: Job) {
    && id in w.original && id in w.taken
    && (id in w.table.jobs ==> w.table.jobs[id] == job)
  }

  lemma SettledNext(w: World, e: Event, id: JobId, job: Job)
    requires Inv(w) && Enabled(w, e) && Finished(job) && job.id == id && Settled(w, id, job)
    ensures Settled(Next(w, e), id, job)
  {
    hide Stories, Distinct, Picked;
    match e
    case Acquire(_, _) =>
      if Next(w, e) != w {
        var other := AcquireIs(w, e);
        hide Next, TakeNext;
        assert other != id;
      }
    case Begin(worker) =>
    case Succeed(worker) => assert Holds(w, worker);
    case Fail(worker, _) =>
      assert Holds(w, worker);
      FailIs(w, e);
      hide HandleFailure, AfterFailure, FailureRecord;
    case _ =>
  }

  lemma FinishedIsSettled(w: World, id: JobId)
    requires Inv(w) && id in w.table.jobs && Finished(w.table.jobs[id])
    ensures Settled(w, id, w.table.jobs[id])
  {
    StoryOf(w, id);
    hide Stories, Owned, Valid;
  }

  lemma FinishedHasItsId(w: World, id: JobId)
    requires Inv(w) && id in w.table.jobs
    ensures w.table.jobs[id].id == id
  {
    hide Stories, Owned, Distinct;
  }

  lemma {:induction false} FinishedIsFinal(states: seq<World>, events: seq<Event>, i: nat, j: nat, id: JobId)
    requires Run(states, events) && i <= j <= |events|
    requires id in states[i].table.jobs && Finished(states[i].table.jobs[id])
    ensures Settled(states[j], id, states[i].table.jobs[id])
    decreases j
  {
    if i == j {
      InvRun(states, events, i);
      hide Run, Inv;
      FinishedIsSettled(states[i], id);
    } else {
      InvRun(states, events, i);
      FinishedHasItsId(states[i], id);
      RunStep(states, events, j - 1);
      hide *;
      FinishedIsFinal(states, events, i, j - 1, id);
      InvRun(states, events, j - 1);
      SettledNext(states[j - 1], events[j - 1], id, states[i].table.jobs[id]);
    }
  }

  // ---- the dead-letter queue ---------------------------------------------------------------------------------

  /** Every scheduler of the run moves exhausted jobs to the same place, or none does. */
  ghost predicate SameDlq(events: seq<Event>, dlq: Option<QueueName>) {
    forall i {:trigger events[i]} :: 0 <= i < |events| && events[i].Acquire? ==> events[i].config.dlqQueue == dlq
  }

  function Home(job: Job, original: Job, dlq: Option<QueueName>): QueueName {
    if job.status == Failed && dlq.Some? then dlq.value else original.queue
  }

  ghost predicate Housed(w: World, dlq: Option<QueueName>) {
    && (forall k :: k in w.held ==> w.held[k].config.dlqQueue == dlq)
    && (forall id {:trigger id in w.table.jobs} :: id in w.table.jobs ==>
          id in w.original && w.table.jobs[id].queue == Home(w.table.jobs[id], w.original[id], dlq))
  }

  /** One record rewritten, in its right place. */
  lemma HousedUpdate(w: World, v: World, id: JobId, job: Job, dlq: Option<QueueName>)
    requires Housed(w, dlq) && id in w.original && v.original == w.original
    requires v.table.jobs == w.table.jobs[id := job] && job.queue == Home(job, w.original[id], dlq)
    requires forall k :: k in v.held ==> (k in w.held && v.held[k].config == w.held[k].config) || v.held[k].config.dlqQueue == dlq
    ensures Housed(v, dlq)
  {
    hide Home;
  }

  lemma HousedNext(w: World, e: Event, dlq: Option<QueueName>)
    requires Inv(w) && Enabled(w, e) && Housed(w, dlq) && (e.Acquire? ==> e.config.dlqQueue == dlq)
    ensures Housed(Next(w, e), dlq)
  {
    hide *;
    match e
    case Acquire(_, _) => HousedAcquire(w, e, dlq);
    case Succeed(worker) => HousedSuccess(w, e, dlq);
    case Fail(worker, _) => HousedFailure(w, e, dlq);
    case Purge(_) => HousedPurge(w, e, dlq);
    case Enqueue(_, _, _, _, _, _) => HousedEnqueue(w, e, dlq);
    case Begin(_) => HousedQuiet(w, e, dlq);
    case Clock(_) => HousedQuiet(w, e, dlq);
  }

  lemma HousedQuiet(w: World, e: Event, dlq: Option<QueueName>)
    requires Inv(w) && Enabled(w, e) && Housed(w, dlq) && (e.Begin? || e.Clock?)
    ensures Housed(Next(w, e), dlq)
  {
    assert Valid(w.table);
    QuietIs(w, e);
    hide *;
    HousedSame(w, Next(w, e), dlq);
  }

  lemma HousedSame(w: World, v: World, dlq: Option<QueueName>)
    requires Housed(w, dlq) && v.table == w.table && v.original == w.original
    requires forall k :: k in v.held ==> k in w.held && v.held[k].config == w.held[k].config
    ensures Housed(v, dlq)
  {
    hide Home;
  }

  lemma QuietIs(w: World, e: Event)
    requires Valid(w.table) && Enabled(w, e) && (e.Begin? || e.Clock?)
    ensures Next(w, e).table == w.table && Next(w, e).original == w.original
    ensures forall k :: k in Next(w, e).held ==> k in w.held && Next(w, e).held[k].config == w.held[k].config
  {
    hide TakeNext, HandleFailure, Purged, Save, Bump;
  }

  lemma HousedPurge(w: World, e: Event, dlq: Option<QueueName>)
    requires Inv(w) && Housed(w, dlq) && e.Purge?
    ensures Housed(Next(w, e), dlq)
  {
    PurgeIs(w, e);
    hide Next, Purged, Inv, Home;
  }

  lemma HousedEnqueue(w: World, e: Event, dlq: Option<QueueName>)
    requires Inv(w) && Enabled(w, e) && Housed(w, dlq) && e.Enqueue?
    ensures Housed(Next(w, e), dlq)
  {
    var v := Next(w, e);
    EnqueueAdds(w, e);
    assert v.held == w.held && v.table.jobs == w.table.jobs[e.id := NewJob(e, w.now)];
    assert NewJob(e, w.now).queue == Home(NewJob(e, w.now), v.original[e.id], dlq);
    hide Next, Inv, Home, NewJob;
  }

  lemma HousedAcquire(w: World, e: Event, dlq: Option<QueueName>)
    requires Inv(w) && Enabled(w, e) && Housed(w, dlq) && e.Acquire? && e.config.dlqQueue == dlq
    ensures Housed(Next(w, e), dlq)
  {
    var v := Next(w, e);
    if v == w { return; }
    var id := AcquireIs(w, e);
    StoryOf(w, id);
    var job := Lock(w.table.jobs[id], w.now + e.config.lockMs);
    assert job.queue == Home(job, w.original[id], dlq);
    hide *;
    HousedUpdate(w, v, id, job, dlq);
  }

  lemma HousedSuccess(w: World, e: Event, dlq: Option<QueueName>)
    requires Inv(w) && Enabled(w, e) && Housed(w, dlq) && e.Succeed?
    ensures Housed(Next(w, e), dlq)
  {
    var v := Next(w, e);
    var id := w.held[e.worker].job.id;
    assert Holds(w, e.worker);
    StoryOf(w, id);
    var job := w.table.jobs[id].(status := Completed);
    assert v.table.jobs == w.table.jobs[id := job] && v.original == w.original && v.held == w.held - {e.worker};
    assert job.queue == Home(job, w.original[id], dlq);
    hide *;
    HousedUpdate(w, v, id, job, dlq);
  }

  lemma HousedFailure(w: World, e: Event, dlq: Option<QueueName>)
    requires Inv(w) && Enabled(w, e) && Housed(w, dlq) && e.Fail?
    ensures Housed(Next(w, e), dlq)
  {
    var h := w.held[e.worker];
    var id := h.job.id;
    var job := FailureRecord(h, e.error, w.now);
    assert Holds(w, e.worker);
    FailIs(w, e);
    StoryOf(w, id);
    assert job.queue == Home(job, w.original[id], dlq);
    hide *;
    HousedUpdate(w, Next(w, e), id, job, dlq);
  }

  lemma {:induction false} HousedRun(states: seq<World>, events: seq<Event>, i: nat, dlq: Option<QueueName>)
    requires Run(states, events) && i <= |events| && SameDlq(events, dlq)
    ensures Housed(states[i], dlq)
  {
    if i > 0 {
      HousedRun(states, events, i - 1, dlq);
      InvRun(states, events, i - 1);
      RunStep(states, events, i - 1);
      HousedNext(states[i - 1], events[i - 1], dlq);
    }
  }

  /**
    With a dead-letter queue, a stored job is there exactly when its attempts are exhausted (jobs
    are not enqueued to it directly); without one, no job ever changes queues.
   */
  lemma DeadLettersAreTheExhaustedJobs(states: seq<World>, events: seq<Event>, i: nat, id: JobId, dlq: Option<QueueName>)
    requires Run(states, events) && i <= |events| && SameDlq(events, dlq) && id in states[i].table.jobs
    requires id in states[i].original ==> dlq != Some(states[i].original[id].queue)
    ensures var w := states[i]; var job := w.table.jobs[id];
      && id in w.original
      && (if dlq.None? then job.queue == w.original[id].queue
          else job.queue == dlq.value <==> Count(w.failures, id) == Limit(w.original[id]))
      && (job.queue == w.original[id].queue || dlq == Some(job.queue))
  {
    HousedRun(states, events, i, dlq);
    InvRun(states, events, i);
    StoryOf(states[i], id);
  }

  // ---- first come, first served -----------------------------------------------------------------------------

  /** `a` was enqueued before `b`, is due no later, and is as urgent; so `b` is never taken before `a`. */
  ghost predicate Behind(w: World, a: JobId, b: JobId) {
    && a in w.original
    && (b in w.original ==>
          && w.original[a].queue == w.original[b].queue
          && w.original[a].priority == w.original[b].priority
          && w.original[a].runAt <= w.original[b].runAt
          && (b in w.taken ==> a in w.taken)
          && (a !in w.taken ==> Precedes(w.table.order, a, b)))
  }

  lemma BehindNext(w: World, e: Event, a: JobId, b: JobId)
    requires Inv(w) && Enabled(w, e) && a != b && Behind(w, a, b) && !e.Enqueue?
    ensures Behind(Next(w, e), a, b)
  {
    match e
    case Acquire(_, _) => hide Inv, Next, Behind; if Next(w, e) != w { BehindAcquire(w, e, a, b); }
    case Purge(olderThan) => BehindPurge(w, e, a, b);
    case Fail(worker, _) => FailIs(w, e); hide Next, Inv, FailureRecord;
    case _ => hide Inv, TakeNext, HandleFailure;
  }

  lemma BehindPurge(w: World, e: Event, a: JobId, b: JobId)
    requires Inv(w) && a != b && Behind(w, a, b) && e.Purge?
    ensures Behind(Next(w, e), a, b)
  {
    if b in w.original && a !in w.taken {
      StoryOf(w, a);
      StoryOf(w, b);
      KeptInOrder(w.table.order, w.table.jobs, w.now, e.olderThan, a, b);
    }
    hide Stories, Owned, Valid, Kept;
  }

  /** A job that is due, as urgent and inserted earlier is in the way. */
  lemma EarlierIsPicked(t: Table, queue: QueueName, now: int, k: nat, x: nat, y: nat)
    requires Valid(t) && x < y < |t.order| && Picked(t, queue, now, k)
    requires var a, b := t.jobs[t.order[x]], t.jobs[t.order[y]];
      a.queue == b.queue && a.priority == b.priority && a.runAt <= b.runAt && a.status == Pending
    ensures k != y
  {
    assert Due(t.jobs[t.order[y]], queue, now) ==> Due(t.jobs[t.order[x]], queue, now);
  }

  lemma BehindAcquire(w: World, e: Event, a: JobId, b: JobId)
    requires Inv(w) && Enabled(w, e) && a != b && Behind(w, a, b) && e.Acquire? && Next(w, e) != w
    ensures Behind(Next(w, e), a, b)
  {
    var id := AcquireIs(w, e);
    assert b in w.original && a !in w.taken ==> id != b by {
      if b in w.original && a !in w.taken {
        StoryOf(w, a);
        assert b in w.table.jobs && b !in w.taken;
        StoryOf(w, b);
        var k: nat :| k < |w.table.order| && w.table.order[k] == id && Picked(w.table, e.config.queue, w.now, k);
        hide Stories, Owned, Picked;
        var x: nat, y: nat :| x < y < |w.table.order| && w.table.order[x] == a && w.table.order[y] == b;
        EarlierIsPicked(w.table, e.config.queue, w.now, k, x, y);
      }
    }
    assert id in w.original by { StoryOf(w, id); }
    hide Next, TakeNext, Stories, Valid, Owned;
  }

  lemma BehindEnqueue(w: World, e: Event, a: JobId, b: JobId)
    requires Inv(w) && Enabled(w, e) && a != b && Behind(w, a, b) && e.Enqueue?
    requires e.id == b ==>
      var job, mine := NewJob(e, w.now), w.original[a];
      job.queue == mine.queue && job.priority == mine.priority && mine.runAt <= job.runAt
    ensures Behind(Next(w, e), a, b)
  {
    var order := w.table.order;
    if e.id == b {
      if a !in w.taken {
        assert a in order;
        var x :| 0 <= x < |order| && order[x] == a;
        assert (order + [b])[x] == a && (order + [b])[|order|] == b;
      }
    } else if b in w.original && a !in w.taken {
      var x, y :| 0 <= x < y < |order| && order[x] == a && order[y] == b;
      assert (order + [e.id])[x] == a && (order + [e.id])[y] == b;
    }
  }

  lemma {:induction false} ClockNeverGoesBack(states: seq<World>, events: seq<Event>, i: nat, j: nat)
    requires Run(states, events) && i <= j <= |events|
    ensures states[i].now <= states[j].now
    decreases j
  {
    if i < j {
      ClockNeverGoesBack(states, events, i, j - 1);
      RunStep(states, events, j - 1);
      hide TakeNext, HandleFailure, Purged;
    }
  }

  /** Enqueued with the same queue, priority and delay: event `p` first, event `q` later. */
  ghost predicate AlikeInOrder(events: seq<Event>, p: nat, q: nat) {
    && p < q < |events| && events[p].Enqueue? && events[q].Enqueue?
    && events[p].queue == events[q].queue && events[p].priority == events[q].priority
    && events[p].delayMs == events[q].delayMs
  }

  lemma {:induction false} OriginalStays(states: seq<World>, events: seq<Event>, i: nat, j: nat, id: JobId)
    requires Run(states, events) && i <= j <= |events| && id in states[i].original
    ensures id in states[j].original && states[j].original[id] == states[i].original[id]
    decreases j
  {
    if i < j {
      OriginalStays(states, events, i, j - 1, id);
      RunStep(states, events, j - 1);
      hide TakeNext, HandleFailure, Purged;
    }
  }

  /**
    Jobs enqueued alike are first acquired in the order they were enqueued, whatever other jobs,
    workers, failures and purges the run has.
   */
  lemma {:induction false} FirstAcquiredInOrder(states: seq<World>, events: seq<Event>, p: nat, q: nat, i: nat)
    requires Run(states, events) && AlikeInOrder(events, p, q) && p < i <= |events|
    ensures Behind(states[i], events[p].id, events[q].id) && events[p].id != events[q].id
    ensures events[q].id in states[i].taken ==> events[p].id in states[i].taken
    decreases i
  {
    var a, b := events[p].id, events[q].id;
    DifferentIds(states, events, p, q);
    if i == p + 1 {
      NotYetEnqueued(states, events, i, q, b);
    } else {
      FirstAcquiredInOrder(states, events, p, q, i - 1);
      BehindStep(states, events, p, q, i - 1);
    }
    InvRun(states, events, i);
    TakenWasEnqueued(states[i], b);
  }

  lemma BehindStep(states: seq<World>, events: seq<Event>, p: nat, q: nat, i: nat)
    requires Run(states, events) && AlikeInOrder(events, p, q) && p < i < |events|
    requires Behind(states[i], events[p].id, events[q].id) && events[p].id != events[q].id
    ensures Behind(states[i + 1], events[p].id, events[q].id)
  {
    var w, e := states[i], events[i];
    InvRun(states, events, i);
    RunStep(states, events, i);
    if e.Enqueue? {
      if e.id == events[q].id { FirstEnqueueOf(states, events, p, q, i); }
      hide Run, Inv, Behind, Next;
      BehindEnqueue(w, e, events[p].id, events[q].id);
    } else {
      hide Run, Inv, Behind, Next;
      BehindNext(w, e, events[p].id, events[q].id);
    }
  }

  lemma DifferentIds(states: seq<World>, events: seq<Event>, p: nat, q: nat)
    requires Run(states, events) && AlikeInOrder(events, p, q)
    ensures events[p].id != events[q].id && events[p].id in states[p + 1].original
  {
    EnqueueStep(states, events, p);
    EnqueueStep(states, events, q);
    hide Run, NewJob;
    OriginalStays(states, events, p + 1, q, events[p].id);
  }

  lemma TakenWasEnqueued(w: World, id: JobId)
    requires Inv(w)
    ensures id in w.taken ==> id in w.original
  {}

  lemma NotYetEnqueued(states: seq<World>, events: seq<Event>, i: nat, q: nat, id: JobId)
    requires Run(states, events) && i <= q < |events| && events[q].Enqueue? && events[q].id == id
    ensures id !in states[i].original
  {
    EnqueueStep(states, events, q);
    hide Run;
    if id in states[i].original { OriginalStays(states, events, i, q, id); }
  }

  /** An id is enqueued once, so the step that enqueues `b` is step `q`; by then the clock has not gone back. */
  lemma FirstEnqueueOf(states: seq<World>, events: seq<Event>, p: nat, q: nat, i: nat)
    requires Run(states, events) && AlikeInOrder(events, p, q) && p < i < |events|
    requires events[i].Enqueue? && events[i].id == events[q].id
    ensures i == q && events[p].id in states[i].original
    ensures var job, mine := NewJob(events[i], states[i].now), states[i].original[events[p].id];
      job.queue == mine.queue && job.priority == mine.priority && mine.runAt <= job.runAt
  {
    EnqueuedOnce(states, events, i, q);
    EnqueueStep(states, events, p);
    hide Run, NewJob, Next;
    OriginalStays(states, events, p + 1, i, events[p].id);
    ClockNeverGoesBack(states, events, p, i);
    SameOrder(events[p], events[i], states[p].now, states[i].now);
  }

  lemma EnqueueStep(states: seq<World>, events: seq<Event>, i: nat)
    requires Run(states, events) && i < |events| && events[i].Enqueue?
    ensures |states| == |events| + 1 && events[i].id !in states[i].original
    ensures states[i + 1].original == states[i].original[events[i].id := NewJob(events[i], states[i].now)]
  {
    RunStep(states, events, i);
    hide Run, Next;
    EnqueueAdds(states[i], events[i]);
  }

  lemma EnqueuedOnce(states: seq<World>, events: seq<Event>, i: nat, q: nat)
    requires Run(states, events) && i < |events| && q < |events|
    requires events[i].Enqueue? && events[q].Enqueue? && events[i].id == events[q].id
    ensures i == q
  {
    EnqueueStep(states, events, i);
    EnqueueStep(states, events, q);
    hide Run, NewJob;
    if i < q { OriginalStays(states, events, i + 1, q, events[q].id); }
    if q < i { OriginalStays(states, events, q + 1, i, events[q].id); }
  }

  lemma SameOrder(e: Event, f: Event, earlier: int, later: int)
    requires e.Enqueue? && f.Enqueue? && earlier <= later
    requires e.queue == f.queue && e.priority == f.priority && e.delayMs == f.delayMs
    ensures var job, mine := NewJob(f, later), NewJob(e, earlier);
      job.queue == mine.queue && job.priority == mine.priority && mine.runAt <= job.runAt
  {}
}
