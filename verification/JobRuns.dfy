/**
  Whole runs of jobs over the in-memory store: any number of schedulers and workers, retries, the
  dead-letter queue and purges, in any order, under a clock that never goes back.
 */
module JobRuns {
  import opened OptionType
  import opened JobRecord
  import opened MemoryJobs
  import opened Text

  /** A scheduler's settings; no dead-letter queue is what an empty queue name amounts to. */
  datatype Config = Config(queue: QueueName, dlqQueue: Option<QueueName>, lockMs: int, retryMs: int)

  /** What a worker holds: its own copy of the record it acquired, its scheduler, and whether the handler was started. */
  datatype Holding = Holding(job: Job, config: Config, begun: bool)

  /**
    `original`, `starts`, `failures` and `taken` only record the past: every job as first saved, how
    often its handler was started, how often it failed, and whether it was ever acquired.
   */
  datatype World = World(
    now: int,
    table: Table,
    held: map<nat, Holding>,
    original: map<JobId, Job>,
    starts: map<JobId, nat>,
    failures: map<JobId, nat>,
    taken: set<JobId>)

  datatype Event =
    | Clock(to: int)
    | Enqueue(id: JobId, name: string, queue: QueueName, priority: int, delayMs: int, maxAttempts: int)
    | Acquire(worker: nat, config: Config)
    | Begin(worker: nat)
    | Succeed(worker: nat)
    | Fail(worker: nat, error: string)
    | Purge(olderThan: Option<int>)

  const EMPTY: World := World(0, Table([], map[]), map[], map[], map[], map[], {})

  function NewJob(e: Event, now: int): Job
    requires e.Enqueue?
  {
    Job(e.id, e.queue, Pending, e.priority, now + e.delayMs, 0, e.maxAttempts, None, None, None)
  }

  /**
    Time moves forward, new jobs get new ids, an idle worker acquires, then starts the handler once,
    and finishes. Failing before the handler was started is what a job without a handler does.
   */
  predicate Enabled(w: World, e: Event) {
    match e
    case Clock(to) => w.now <= to
    case Enqueue(id, _, _, _, _, _) => id !in w.original
    case Acquire(worker, _) => worker !in w.held
    case Begin(worker) => worker in w.held && !w.held[worker].begun
    case Succeed(worker) => worker in w.held && w.held[worker].begun
    case Fail(worker, _) => worker in w.held
    case Purge(_) => true
  }

  function Bump(m: map<JobId, nat>, id: JobId): map<JobId, nat> {
    m[id := (if id in m then m[id] else 0) + 1]
  }

  function Count(m: map<JobId, nat>, id: JobId): nat {
    if id in m then m[id] else 0
  }

  /** What the failure handler writes: a final failure, possibly moved to the dead-letter queue, or a retry. */
  function AfterFailure(t: Table, h: Holding, error: string, now: int): Table {
    var attempt := h.job.attempts + 1;
    if attempt >= h.job.maxAttempts then
      if h.config.dlqQueue.Some? then
        Save(t, h.job.(attempts := attempt, status := Failed, error := Some(error),
                       queue := h.config.dlqQueue.value, lockedAt := None, lockExpiresAt := None))
      else MarkFailed(t, h.job.id, error, None)
    else MarkFailed(t, h.job.id, error, Some(now + h.config.retryMs))
  }

  function HandleFailure(w: World, worker: nat, error: string): World
    requires worker in w.held
  {
    var h := w.held[worker];
    w.(table := AfterFailure(w.table, h, error, w.now),
       held := w.held - {worker},
       failures := Bump(w.failures, h.job.id))
  }

  function Next(w: World, e: Event): World
    requires Valid(w.table) && Enabled(w, e)
  {
    match e
    case Clock(to) => w.(now := to)
    case Enqueue(id, _, _, _, _, _) =>
      var job := NewJob(e, w.now);
      w.(table := Save(w.table, job), original := w.original[id := job])
    case Acquire(worker, config) =>
      var (table, job) := TakeNext(w.table, config.queue, w.now, config.lockMs);
      if job.None? then w
      else w.(table := table, held := w.held[worker := Holding(job.value, config, false)], taken := w.taken + {job.value.id})
    case Begin(worker) =>
      w.(held := w.held[worker := w.held[worker].(begun := true)], starts := Bump(w.starts, w.held[worker].job.id))
    case Succeed(worker) =>
      w.(table := MarkCompleted(w.table, w.held[worker].job.id), held := w.held - {worker})
    case Fail(worker, error) => HandleFailure(w, worker, error)
    case Purge(olderThan) => w.(table := Purged(w.table, w.now, olderThan))
  }

  ghost predicate Run(states: seq<World>, events: seq<Event>) {
    && |states| == |events| + 1
    && states[0] == EMPTY
    && forall i {:trigger events[i]} :: 0 <= i < |events| ==>
         Valid(states[i].table) && Enabled(states[i], events[i]) && states[i + 1] == Next(states[i], events[i])
  }

  // ---- the invariant -------------------------------------------------------------------------------------

  function Limit(job: Job): nat { if job.maxAttempts > 1 then job.maxAttempts else 1 }

  /** A job's story so far, told by its record. */
  predicate Story(job: Job, starts: nat, failures: nat, taken: bool, original: Job) {
    && job.maxAttempts == original.maxAttempts
    && job.attempts == failures
    && (job.status != Failed ==> job.attempts < Limit(job))
    && (job.status == Failed ==> job.attempts == Limit(job))
    && starts <= failures + (if job.status.Running? || job.status.Completed? then 1 else 0)
    && (!taken ==> job == original && job.status == Pending)
  }

  ghost predicate Stories(w: World) {
    && (forall id {:trigger id in w.table.jobs} :: id in w.table.jobs ==>
          id in w.original && Story(w.table.jobs[id], Count(w.starts, id), Count(w.failures, id), id in w.taken, w.original[id]))
    && (forall id {:trigger id in w.original} :: id in w.original ==>
          Count(w.starts, id) <= Limit(w.original[id]) && Count(w.failures, id) <= Limit(w.original[id]))
    && (forall id :: id in w.original && id !in w.taken ==> id in w.table.jobs)
    && (forall id :: id !in w.original ==> Count(w.starts, id) == 0 && Count(w.failures, id) == 0 && id !in w.taken)
  }

  /** Running records are exactly the workers' copies, one worker each. */
  ghost predicate Owned(w: World) {
    && (forall k :: k in w.held ==> Holds(w, k))
    && (forall k, l :: k in w.held && l in w.held && w.held[k].job.id == w.held[l].job.id ==> k == l)
    && (forall id :: id in w.table.jobs && w.table.jobs[id].status == Running ==> Worked(w, id))
  }

  predicate Holds(w: World, k: nat)
    requires k in w.held
  {
    var h := w.held[k];
    && h.job.id in w.table.jobs && w.table.jobs[h.job.id] == h.job
    && h.job.status == Running
    && (!h.begun ==> Count(w.starts, h.job.id) <= Count(w.failures, h.job.id))
  }

  ghost predicate Worked(w: World, id: JobId) {
    exists k :: k in w.held && w.held[k].job.id == id
  }

  ghost predicate Inv(w: World) {
    Valid(w.table) && Stories(w) && Owned(w)
  }

  // ---- every step keeps it ----------------------------------------------------------------------------------

  /** The record a failure leaves behind. */
  function FailureRecord(h: Holding, error: string, now: int): Job {
    var attempt := h.job.attempts + 1;
    if attempt >= h.job.maxAttempts && h.config.dlqQueue.Some? then
      h.job.(attempts := attempt, status := Failed, error := Some(error),
             queue := h.config.dlqQueue.value, lockedAt := None, lockExpiresAt := None)
    else FailedAttempt(h.job, error, if attempt >= h.job.maxAttempts then None else Some(now + h.config.retryMs))
  }

  lemma FailureIs(w: World, worker: nat, error: string)
    requires worker in w.held && Holds(w, worker) && Valid(w.table)
    ensures var h := w.held[worker];
      AfterFailure(w.table, h, error, w.now)
        == Table(w.table.order, w.table.jobs[h.job.id := FailureRecord(h, error, w.now)])
  {}

  /** One record written, one worker's holding changed: the rest of the invariant is untouched. */
  ghost predicate OnlyAbout(w: World, v: World, id: JobId) {
    && v.table.order == w.table.order && v.original == w.original
    && (forall i :: i in v.table.jobs <==> i in w.table.jobs)
    && (forall i :: i in w.table.jobs && i != id ==> v.table.jobs[i] == w.table.jobs[i])
    && (forall i :: i != id ==> Count(v.starts, i) == Count(w.starts, i) && Count(v.failures, i) == Count(w.failures, i))
    && (forall i :: i != id ==> (i in v.taken <==> i in w.taken))
    && w.taken <= v.taken
  }

  lemma StoriesElsewhere(w: World, v: World, id: JobId)
    requires Stories(w) && OnlyAbout(w, v, id) && id in w.table.jobs
    requires Story(v.table.jobs[id], Count(v.starts, id), Count(v.failures, id), id in v.taken, v.original[id])
    ensures Stories(v)
  {
    hide Story, Count;
    forall i | i in v.table.jobs
      ensures i in v.original
      ensures Story(v.table.jobs[i], Count(v.starts, i), Count(v.failures, i), i in v.taken, v.original[i])
    {
      assert i in w.table.jobs;
    }
    StoryBounds(v.table.jobs[id], Count(v.starts, id), Count(v.failures, id), id in v.taken, v.original[id]);
  }

  lemma StoryBounds(job: Job, starts: nat, failures: nat, taken: bool, original: Job)
    requires Story(job, starts, failures, taken, original)
    ensures starts <= Limit(original) && failures <= Limit(original)
  {}

  lemma EnqueueKeeps(w: World, e: Event)
    requires Inv(w) && e.Enqueue? && Enabled(w, e)
    ensures Inv(Next(w, e))
  {
    var v := Next(w, e);
    var id := e.id;
    SaveValid(w.table, NewJob(e, w.now));
    assert v == w.(table := Save(w.table, NewJob(e, w.now)), original := w.original[id := NewJob(e, w.now)]);
    assert id !in w.table.jobs && v.table.jobs == w.table.jobs[id := v.original[id]];
    assert Story(v.table.jobs[id], Count(v.starts, id), Count(v.failures, id), id in v.taken, v.original[id]);
    StoryBounds(v.table.jobs[id], Count(v.starts, id), Count(v.failures, id), id in v.taken, v.original[id]);
    hide Story, Count, Next, Save, NewJob, Limit, Valid;
    assert Stories(v);
    EnqueueOwned(w, v, id);
  }

  lemma EnqueueOwned(w: World, v: World, id: JobId)
    requires Owned(w) && id !in w.table.jobs && id in v.table.jobs
    requires v.table.jobs == w.table.jobs[id := v.table.jobs[id]] && v.table.jobs[id].status == Pending
    requires v.held == w.held && v.starts == w.starts && v.failures == w.failures
    ensures Owned(v)
  {
    hide Count;
    forall k | k in v.held ensures Holds(v, k) { assert Holds(w, k); }
    forall i | i in v.table.jobs && v.table.jobs[i].status == Running ensures Worked(v, i) {
      assert Worked(w, i);
      var k :| k in w.held && w.held[k].job.id == i;
      assert v.held[k].job.id == i;
    }
  }

  lemma UpdateValid(t: Table, job: Job)
    requires Valid(t) && job.id in t.jobs
    ensures Valid(Table(t.order, t.jobs[job.id := job]))
  {}

  lemma StoryOf(w: World, id: JobId)
    requires Stories(w) && id in w.table.jobs
    ensures id in w.original
    ensures Story(w.table.jobs[id], Count(w.starts, id), Count(w.failures, id), id in w.taken, w.original[id])
  {}

  lemma AcquireKeeps(w: World, e: Event)
    requires Inv(w) && e.Acquire? && Enabled(w, e)
    ensures Inv(Next(w, e))
  {
    TakenValid(w.table, e.config.queue, w.now, e.config.lockMs);
    var v := Next(w, e);
    if v == w { return; }
    var id := AcquireIs(w, e);
    StoryOf(w, id);
    assert w.table.jobs[id].id == id;
    var job := Lock(w.table.jobs[id], w.now + e.config.lockMs);
    AcquireFrom(w, v, e.worker, e.config, id, job);
  }

  lemma AcquireFrom(w: World, v: World, worker: nat, config: Config, id: JobId, job: Job)
    requires Stories(w) && Owned(w) && worker !in w.held && id in w.table.jobs && w.table.jobs[id].status == Pending
    requires job.id == id && job.lockedAt.Some? && job == Lock(w.table.jobs[id], job.lockedAt.value)
    requires v == w.(table := Table(w.table.order, w.table.jobs[id := job]),
                     held := w.held[worker := Holding(job, config, false)], taken := w.taken + {id})
    ensures Stories(v) && Owned(v)
  {
    StoryOf(w, id);
    assert Count(w.starts, id) <= Count(w.failures, id);
    assert Story(job, Count(w.starts, id), Count(w.failures, id), true, w.original[id]);
    hide Stories, Owned, Story, Count, Lock;
    StoriesElsewhere(w, v, id);
    AcquireOwned(w, v, worker, id);
  }

  /** What an acquisition changes. */
  lemma AcquireIs(w: World, e: Event) returns (id: JobId)
    requires Valid(w.table) && e.Acquire? && Enabled(w, e) && Next(w, e) != w
    ensures id in w.table.jobs && w.table.jobs[id].status == Pending && w.table.jobs[id].id == id
    ensures var job := Lock(w.table.jobs[id], w.now + e.config.lockMs);
      Next(w, e) == w.(table := Table(w.table.order, w.table.jobs[id := job]),
                       held := w.held[e.worker := Holding(job, e.config, false)], taken := w.taken + {id})
    ensures exists k: nat :: k < |w.table.order| && w.table.order[k] == id && Picked(w.table, e.config.queue, w.now, k)
  {
    TakenIsPicked(w.table, e.config.queue, w.now, e.config.lockMs);
    var r := TakeNext(w.table, e.config.queue, w.now, e.config.lockMs);
    var job := r.1.value;
    hide TakeNext;
    var k: nat :| Picked(w.table, e.config.queue, w.now, k) && Locked(w.table, r.0, job, k, w.now + e.config.lockMs);
    id := w.table.order[k];
    assert id in w.table.order;
    hide Distinct;
  }

  lemma AcquireOwned(w: World, v: World, worker: nat, id: JobId)
    requires Owned(w) && worker !in w.held && worker in v.held && v.held == w.held[worker := v.held[worker]]
    requires v.held[worker].job.id == id && id in w.table.jobs && w.table.jobs[id].status == Pending
    requires v.table.jobs == w.table.jobs[id := v.held[worker].job] && v.held[worker].job.status == Running
    requires v.starts == w.starts && v.failures == w.failures && Count(w.starts, id) <= Count(w.failures, id)
    ensures Owned(v)
  {
    hide Count;
    forall k | k in v.held ensures Holds(v, k) {
      if k != worker { assert Holds(w, k); }
    }
    forall k, l | k in v.held && l in v.held && v.held[k].job.id == v.held[l].job.id ensures k == l {
      if k != worker { assert Holds(w, k); }
      if l != worker { assert Holds(w, l); }
    }
    forall i | i in v.table.jobs && v.table.jobs[i].status == Running ensures Worked(v, i) {
      if i == id { assert v.held[worker].job.id == i; }
      else {
        assert Worked(w, i);
        var k :| k in w.held && w.held[k].job.id == i;
        assert v.held[k].job.id == i;
      }
    }
  }

  /** A purge: finished records go, nothing else changes. */
  lemma PurgeIs(w: World, e: Event)
    requires Valid(w.table) && e.Purge?
    ensures Next(w, e) == w.(table := Purged(w.table, w.now, e.olderThan))
    ensures forall id :: id in Next(w, e).table.jobs <==>
      id in w.table.jobs && !Purgeable(w.table.jobs[id], w.now, e.olderThan)
    ensures forall id :: id in Next(w, e).table.jobs ==> Next(w, e).table.jobs[id] == w.table.jobs[id]
  {
    hide Kept, TakeNext, HandleFailure;
  }

  lemma BeginKeeps(w: World, e: Event)
    requires Inv(w) && e.Begin? && Enabled(w, e)
    ensures Inv(Next(w, e))
  {
    var v := Next(w, e);
    var id := w.held[e.worker].job.id;
    BeginStory(w, e);
    assert v == w.(held := v.held, starts := v.starts);
    assert v.held == w.held[e.worker := w.held[e.worker].(begun := true)];
    hide Next, Bump, Story, Valid, Owned;
    StoriesElsewhere(w, v, id);
    BeginOwned(w, v, e.worker);
  }

  lemma BeginOwned(w: World, v: World, worker: nat)
    requires Owned(w) && worker in w.held && v == w.(held := v.held, starts := v.starts)
    requires v.held == w.held[worker := w.held[worker].(begun := true)]
    requires forall i :: i != w.held[worker].job.id ==> Count(v.starts, i) == Count(w.starts, i)
    ensures Owned(v)
  {
    hide Count;
    forall k | k in v.held ensures Holds(v, k) {
      assert Holds(w, k);
      assert k != worker ==> w.held[k].job.id != w.held[worker].job.id;
    }
    forall i | i in v.table.jobs && v.table.jobs[i].status == Running ensures Worked(v, i) {
      assert Worked(w, i);
      var k :| k in w.held && w.held[k].job.id == i;
      assert v.held[k].job.id == i;
    }
  }

  lemma BeginStory(w: World, e: Event)
    requires Inv(w) && e.Begin? && Enabled(w, e)
    ensures var v, id := Next(w, e), w.held[e.worker].job.id;
      && id in w.table.jobs && OnlyAbout(w, v, id) && id in v.original
      && Story(v.table.jobs[id], Count(v.starts, id), Count(v.failures, id), id in v.taken, v.original[id])
  {
    assert Holds(w, e.worker);
    hide Valid;
  }

  lemma SucceedKeeps(w: World, e: Event)
    requires Inv(w) && e.Succeed? && Enabled(w, e)
    ensures Inv(Next(w, e))
  {
    assert Holds(w, e.worker);
    var id := w.held[e.worker].job.id;
    var job := w.table.jobs[id].(status := Completed);
    StoryOf(w, id);
    assert w.table.jobs[id].id == id;
    UpdateValid(w.table, job);
    var v := w.(table := Table(w.table.order, w.table.jobs[id := job]), held := w.held - {e.worker});
    assert Next(w, e) == v by { hide Valid, Stories, Owned; }
    hide Next, Valid;
    WorkerFinished(w, v, e.worker, job);
  }

  lemma FailKeeps(w: World, e: Event)
    requires Inv(w) && e.Fail? && Enabled(w, e)
    ensures Inv(Next(w, e))
  {
    FailIs(w, e);
    var h := w.held[e.worker];
    var id, job := h.job.id, FailureRecord(h, e.error, w.now);
    assert Holds(w, e.worker);
    StoryOf(w, id);
    RecordStory(h, e.error, w.now, Count(w.starts, id), Count(w.failures, id), w.original[id]);
    assert w.table.jobs[id].id == id;
    UpdateValid(w.table, job);
    var v := Next(w, e);
    hide Next, Valid, FailureRecord, Stories, Owned;
    WorkerFinished(w, v, e.worker, job);
  }

  /** What a failure changes: one record, one holding, one count. */
  lemma FailIs(w: World, e: Event)
    requires Inv(w) && e.Fail? && Enabled(w, e)
    ensures var h := w.held[e.worker];
      Next(w, e) == w.(table := Table(w.table.order, w.table.jobs[h.job.id := FailureRecord(h, e.error, w.now)]),
                       held := w.held - {e.worker}, failures := Bump(w.failures, h.job.id))
  {
    assert Holds(w, e.worker);
    FailureIs(w, e.worker, e.error);
    hide AfterFailure, FailureRecord, Valid, Stories, Owned;
  }

  /** A worker is done: its record is written, no longer running, and it holds nothing any more. */
  lemma WorkerFinished(w: World, v: World, worker: nat, job: Job)
    requires Stories(w) && Owned(w) && worker in w.held && job.status != Running
    requires var id := w.held[worker].job.id;
      && job.id == id && id in w.original
      && v == w.(table := Table(w.table.order, w.table.jobs[id := job]), held := w.held - {worker}, failures := v.failures)
      && (v.failures == w.failures || v.failures == Bump(w.failures, id))
      && Story(job, Count(v.starts, id), Count(v.failures, id), true, w.original[id])
    ensures Stories(v) && Owned(v)
  {
    assert Holds(w, worker);
    var id := w.held[worker].job.id;
    StoryOf(w, id);
    assert id in w.taken;
    hide Stories, Owned, Story;
    assert OnlyAbout(w, v, id);
    hide Count;
    StoriesElsewhere(w, v, id);
    ReleaseOwned(w, v, worker);
  }

  lemma RecordStory(h: Holding, error: string, now: int, starts: nat, failures: nat, original: Job)
    requires Story(h.job, starts, failures, true, original) && h.job.status == Running
    ensures Story(FailureRecord(h, error, now), starts, failures + 1, true, original)
    ensures FailureRecord(h, error, now).status != Running && FailureRecord(h, error, now).id == h.job.id
  {}

  lemma ReleaseOwned(w: World, v: World, worker: nat)
    requires Owned(w) && worker in w.held && v.held == w.held - {worker}
    requires OnlyAbout(w, v, w.held[worker].job.id)
    requires var id := w.held[worker].job.id; id in v.table.jobs && v.table.jobs[id].status != Running
    ensures Owned(v)
  {
    hide Count;
    var id := w.held[worker].job.id;
    forall k | k in v.held ensures Holds(v, k) {
      assert Holds(w, k);
      assert w.held[k].job.id != id;
    }
    forall i | i in v.table.jobs && v.table.jobs[i].status == Running ensures Worked(v, i) {
      assert Worked(w, i);
      var k :| k in w.held && w.held[k].job.id == i;
      assert v.held[k].job.id == i;
    }
  }

  lemma PurgeKeeps(w: World, e: Event)
    requires Inv(w) && e.Purge?
    ensures Inv(Next(w, e))
  {
    var v := Next(w, e);
    PurgedValid(w.table, w.now, e.olderThan);
    PurgeIs(w, e);
    hide Next, Purged, Valid, Stories, Owned;
    PurgeStories(w, v);
    PurgeOwned(w, v);
  }

  lemma PurgeStories(w: World, v: World)
    requires Stories(w) && v == w.(table := v.table)
    requires forall id :: id in v.table.jobs ==> id in w.table.jobs && v.table.jobs[id] == w.table.jobs[id]
    requires forall id :: id in w.table.jobs && id !in v.table.jobs ==> w.table.jobs[id].status != Pending
    ensures Stories(v)
  {
    forall id | id in v.original && id !in v.taken ensures id in v.table.jobs { StoryOf(w, id); }
    hide Count, Limit, Story;
  }

  lemma PurgeOwned(w: World, v: World)
    requires Owned(w) && v == w.(table := v.table)
    requires forall id :: id in v.table.jobs ==> id in w.table.jobs && v.table.jobs[id] == w.table.jobs[id]
    requires forall id :: id in w.table.jobs && id !in v.table.jobs ==> w.table.jobs[id].status != Running
    ensures Owned(v)
  {
    hide Count;
    forall k | k in v.held ensures Holds(v, k) { assert Holds(w, k); }
    forall i | i in v.table.jobs && v.table.jobs[i].status == Running ensures Worked(v, i) {
      assert Worked(w, i);
      var k :| k in w.held && w.held[k].job.id == i;
      assert v.held[k].job.id == i;
    }
  }

  lemma InvNext(w: World, e: Event)
    requires Inv(w) && Enabled(w, e)
    ensures Inv(Next(w, e))
  {
    match e
    case Clock(to) =>
      var v := Next(w, e);
      assert forall k :: k in w.held ==> Holds(w, k) && Holds(v, k);
      assert forall i :: Worked(w, i) ==> Worked(v, i);
    case Enqueue(_, _, _, _, _, _) => EnqueueKeeps(w, e);
    case Acquire(_, _) => AcquireKeeps(w, e);
    case Begin(_) => BeginKeeps(w, e);
    case Succeed(_) => SucceedKeeps(w, e);
    case Fail(_, _) => FailKeeps(w, e);
    case Purge(_) => PurgeKeeps(w, e);
  }

  lemma {:induction false} InvRun(states: seq<World>, events: seq<Event>, i: nat)
    requires Run(states, events) && i <= |events|
    ensures Inv(states[i])
  {
    if i > 0 {
      RunStep(states, events, i - 1);
      hide *;
      InvRun(states, events, i - 1);
      InvNext(states[i - 1], events[i - 1]);
    } else {
      hide Next;
    }
  }

  lemma RunStep(states: seq<World>, events: seq<Event>, i: nat)
    requires Run(states, events) && i < |events|
    ensures |states| == |events| + 1
    ensures Valid(states[i].table) && Enabled(states[i], events[i]) && states[i + 1] == Next(states[i], events[i])
  {
    var e := events[i];
    hide Next, Enabled, Valid;
  }
}
