/**
  The Redis job storage as a protocol. Every Redis command is one atomic step; between two
  commands of one worker, any other worker may run. A worker is idle or stands in front of its
  next command, holding whatever it read earlier, however stale that has become.
 */
module RedisQueue {
  import opened OptionType
  import opened JobRecord
  import opened StableSort

  type WorkerId = nat

  /** The command a worker issues next. */
  datatype Pc =
    | Idle
      // save: GET, [SREM, ZREM], SET, SADD, SADD, ZADD or ZREM
    | SaveGet(job: Job)
    | SaveSremOld(job: Job, oldQueue: QueueName)
    | SaveZremOld(job: Job, oldQueue: QueueName)
    | SaveSet(job: Job)
    | SaveSaddAll(job: Job)
    | SaveSaddQueue(job: Job)
    | SaveIndex(job: Job)
      // acquireNext: ZRANGEBYSCORE, MGET, one EVAL per candidate
    | AcquireRange(queue: QueueName, now: int, lockMs: int)
    | AcquireMget(queue: QueueName, now: int, lockMs: int, ids: seq<JobId>)
    | AcquireEval(queue: QueueName, now: int, lockMs: int, candidates: seq<Job>)
      // executeJob, between the EVAL reply and the handler's outcome
    | Handling(job: Job)
      // complete: GET, SET, ZREM
    | CompleteGet(id: JobId)
    | CompleteSet(job: Job)
    | CompleteZrem(job: Job)
      // fail: GET, SET, ZADD or ZREM
    | FailGet(id: JobId, error: string, retryInMs: Option<int>)
    | FailSet(job: Job)
    | FailIndex(job: Job)

  datatype Event =
    | Acquired(worker: WorkerId, id: JobId)
    | Requeued(worker: WorkerId, id: JobId)
    | Finished(worker: WorkerId, id: JobId)

  datatype State = State(
    clock: int,
    records: map<JobId, Job>,
    zsets: map<QueueName, map<JobId, int>>,
    allIds: set<JobId>,
    queueIds: map<QueueName, set<JobId>>,
    workers: map<WorkerId, Pc>,
    issued: set<JobId>,
    history: seq<Event>)

  function PcOf(s: State, w: WorkerId): Pc {
    if w in s.workers then s.workers[w] else Idle
  }

  function Zset(s: State, q: QueueName): map<JobId, int> {
    if q in s.zsets then s.zsets[q] else map[]
  }

  function Listed(s: State, q: QueueName): set<JobId> {
    if q in s.queueIds then s.queueIds[q] else {}
  }

  // ---- the steps ----------------------------------------------------------------------

  /** The nondeterministic part of a step: who moves, and what the world outside decides. */
  datatype Step =
    | Tick(clock: int)
    | Enqueue(w: WorkerId, job: Job)
    | Poll(w: WorkerId, queue: QueueName, lockMs: int)
    | Range(w: WorkerId, ids: seq<JobId>)
    | HandlerOk(w: WorkerId)
    | HandlerFailed(w: WorkerId, error: string, dlq: Option<QueueName>, retryDelay: int)
    | Command(w: WorkerId)

  function Move(s: State, w: WorkerId, pc: Pc): State {
    s.(workers := s.workers[w := pc])
  }

  function ZAdd(s: State, q: QueueName, score: int, id: JobId): State {
    s.(zsets := s.zsets[q := Zset(s, q)[id := score]])
  }

  function ZRem(s: State, q: QueueName, id: JobId): State {
    s.(zsets := s.zsets[q := Zset(s, q) - {id}])
  }

  /** `ids` is a reply ZRANGEBYSCORE may give: the members scored lo..hi, in score order. */
  ghost predicate RangeReply(z: map<JobId, int>, lo: int, hi: int, ids: seq<JobId>) {
    && (forall id :: id in ids <==> id in z && lo <= z[id] <= hi)
    && (forall i, j :: 0 <= i < j < |ids| ==> ids[i] != ids[j])
    && (forall i, j :: 0 <= i < j < |ids| ==> z[ids[i]] <= z[ids[j]])
  }

  /** The MGET reply, filtered to pending jobs that are due by the worker's own clock reading. */
  function DueRecords(records: map<JobId, Job>, ids: seq<JobId>, now: int): (r: seq<Job>)
    ensures forall j :: j in r ==> exists id :: id in ids && id in records && j == records[id]
    ensures forall j :: j in r ==> j.status == Pending && j.runAt <= now
  {
    if ids == [] then []
    else
      var rest := DueRecords(records, ids[1..], now);
      if ids[0] in records && records[ids[0]].status == Pending && records[ids[0]].runAt <= now
      then [records[ids[0]]] + rest else rest
  }

  predicate CandidateBefore(a: Job, b: Job) {
    a.priority > b.priority || (a.priority == b.priority && a.runAt <= b.runAt)
  }

  function AfterMiss(pc: Pc): Pc
    requires pc.AcquireEval? && pc.candidates != []
  {
    if |pc.candidates| == 1 then Idle else pc.(candidates := pc.candidates[1..])
  }

  function Locked(job: Job, until: int): Job {
    job.(status := Running, lockExpiresAt := Some(until), lockedAt := Some(until))
  }

  /** The Lua script: check and lock in one atomic step. */
  function Eval(s: State, w: WorkerId, pc: Pc): State
    requires pc.AcquireEval? && pc.candidates != []
  {
    var id := pc.candidates[0].id;
    if id in s.records && s.records[id].status == Pending && s.records[id].runAt <= pc.now then
      var job := Locked(s.records[id], pc.now + pc.lockMs);
      var t := ZRem(s.(records := s.records[id := job]), pc.queue, job.id);
      Move(t, w, Handling(job)).(history := s.history + [Acquired(w, id)])
    else
      Move(s, w, AfterMiss(pc))
  }

  /** Where a failed handler sends its worker: the dead-letter queue, or `fail` with or without a retry. */
  function AfterFailure(job: Job, error: string, dlq: Option<QueueName>, retryDelay: int): Pc {
    if job.attempts + 1 >= job.maxAttempts then
      if dlq.Some? then
        SaveGet(job.(attempts := job.attempts + 1, status := Failed, error := Some(error),
                queue := dlq.value, lockedAt := None, lockExpiresAt := None))
      else FailGet(job.id, error, None)
    else FailGet(job.id, error, Some(retryDelay))
  }

  function NormalizeLock(job: Job): Job {
    if job.lockExpiresAt.Some? then job.(lockedAt := job.lockExpiresAt) else job
  }

  function WriteRecord(s: State, w: WorkerId, job: Job, next: Pc, outcome: Event): State {
    Move(s.(records := s.records[job.id := job]), w, next).(history := s.history + [outcome])
  }

  /** The effect of the one Redis command in front of which worker `w` stands. */
  function RunCommand(s: State, w: WorkerId): State {
    match PcOf(s, w)
    case SaveGet(job) =>
      if job.id in s.records && s.records[job.id].queue != job.queue
      then Move(s, w, SaveSremOld(job, s.records[job.id].queue))
      else Move(s, w, SaveSet(NormalizeLock(job)))
    case SaveSremOld(job, q) =>
      Move(s.(queueIds := s.queueIds[q := Listed(s, q) - {job.id}]), w, SaveZremOld(job, q))
    case SaveZremOld(job, q) =>
      Move(ZRem(s, q, job.id), w, SaveSet(NormalizeLock(job)))
    case SaveSet(job) =>
      if job.status == Pending
      then Move(s.(records := s.records[job.id := job]), w, SaveSaddAll(job))
      else WriteRecord(s, w, job, SaveSaddAll(job), Finished(w, job.id))
    case SaveSaddAll(job) =>
      Move(s.(allIds := s.allIds + {job.id}), w, SaveSaddQueue(job))
    case SaveSaddQueue(job) =>
      Move(s.(queueIds := s.queueIds[job.queue := Listed(s, job.queue) + {job.id}]), w, SaveIndex(job))
    case SaveIndex(job) =>
      if job.status == Pending then Move(ZAdd(s, job.queue, job.runAt, job.id), w, Idle)
      else Move(ZRem(s, job.queue, job.id), w, Idle)
    case AcquireMget(q, now, lockMs, ids) =>
      var candidates := Sort(CandidateBefore, DueRecords(s.records, ids, now));
      Move(s, w, if candidates == [] then Idle else AcquireEval(q, now, lockMs, candidates))
    case AcquireEval(_, _, _, candidates) =>
      if candidates == [] then Move(s, w, Idle) else Eval(s, w, PcOf(s, w))
    case CompleteGet(id) =>
      if id in s.records
      then Move(s, w, CompleteSet(s.records[id].(status := Completed, lockedAt := None)))
      else Move(s, w, Idle)
    case CompleteSet(job) =>
      WriteRecord(s, w, job, CompleteZrem(job), Finished(w, job.id))
    case CompleteZrem(job) =>
      Move(ZRem(s, job.queue, job.id), w, Idle)
    case FailGet(id, error, retryInMs) =>
      if id in s.records then
        var retryAt := if retryInMs.Some? then Some(s.clock + retryInMs.value) else None;
        Move(s, w, FailSet(FailedAttempt(s.records[id].(lockedAt := None), error, retryAt)))
      else Move(s, w, Idle)
    case FailSet(job) =>
      WriteRecord(s, w, job, FailIndex(job),
                  if job.status == Pending then Requeued(w, job.id) else Finished(w, job.id))
    case FailIndex(job) =>
      if job.status == Pending then Move(ZAdd(s, job.queue, job.runAt, job.id), w, Idle)
      else Move(ZRem(s, job.queue, job.id), w, Idle)
    case _ => s
  }

  ghost predicate Init(s: State) {
    && s.records == map[] && s.zsets == map[] && s.workers == map[]
    && s.allIds == {} && s.queueIds == map[] && s.issued == {} && s.history == []
  }

  /** A job as `enqueue` builds it: a new id, pending, no attempt made, no lock. */
  predicate Fresh(s: State, job: Job) {
    && job.id !in s.issued && job.status == Pending && job.attempts == 0
    && job.lockedAt == None && job.lockExpiresAt == None && job.error == None
  }

  ghost predicate Next(s: State, t: State, step: Step) {
    match step
    case Tick(clock) => s.clock <= clock && t == s.(clock := clock)
    case Enqueue(w, job) =>
      PcOf(s, w) == Idle && Fresh(s, job) && t == Move(s, w, SaveGet(job)).(issued := s.issued + {job.id})
    case Poll(w, queue, lockMs) =>
      PcOf(s, w) == Idle && t == Move(s, w, AcquireRange(queue, s.clock, lockMs))
    case Range(w, ids) =>
      var pc := PcOf(s, w);
      && pc.AcquireRange? && RangeReply(Zset(s, pc.queue), 0, pc.now, ids)
      && t == Move(s, w, if ids == [] then Idle else AcquireMget(pc.queue, pc.now, pc.lockMs, ids))
    case HandlerOk(w) =>
      var pc := PcOf(s, w);
      pc.Handling? && t == Move(s, w, CompleteGet(pc.job.id))
    case HandlerFailed(w, error, dlq, retryDelay) =>
      var pc := PcOf(s, w);
      pc.Handling? && t == Move(s, w, AfterFailure(pc.job, error, dlq, retryDelay))
    case Command(w) =>
      var pc := PcOf(s, w);
      !pc.Idle? && !pc.AcquireRange? && !pc.Handling? && t == RunCommand(s, w)
  }

  /** A finite run: any interleaving of any number of workers. */
  ghost predicate Run(states: seq<State>, steps: seq<Step>) {
    && |states| == |steps| + 1
    && Init(states[0])
    && forall i :: 0 <= i < |steps| ==> Next(states[i], states[i + 1], steps[i])
  }

  // ---- ownership -------------------------------------------------------------------------

  /** The worker holds the job: from a successful EVAL up to the SET that gives it up. */
  predicate Owns(pc: Pc, id: JobId) {
    match pc
    case Handling(job) => job.id == id
    case CompleteGet(i) => i == id
    case CompleteSet(job) => job.id == id
    case FailGet(i, _, _) => i == id
    case FailSet(job) => job.id == id
    case SaveGet(job) => job.id == id && job.status == Failed
    case SaveSremOld(job, _) => job.id == id && job.status == Failed
    case SaveZremOld(job, _) => job.id == id && job.status == Failed
    case SaveSet(job) => job.id == id && job.status == Failed
    case _ => false
  }

  /** The worker is enqueueing the job and has not written its record yet. */
  predicate Enqueues(pc: Pc, id: JobId) {
    (pc.SaveGet? || pc.SaveSet?) && pc.job.id == id && pc.job.status == Pending
  }

  /** The worker wrote a first pending record and still has to index it. */
  predicate IndexesNew(pc: Pc, id: JobId) {
    (pc.SaveSaddAll? || pc.SaveSaddQueue? || pc.SaveIndex?) && pc.job.id == id && pc.job.status == Pending
  }

  /** The worker sits between a SET that wrote `pending` and its ZADD into queue `q`. */
  predicate Indexes(pc: Pc, id: JobId, q: QueueName) {
    && (IndexesNew(pc, id) || (pc.FailIndex? && pc.job.id == id && pc.job.status == Pending))
    && pc.job.queue == q
  }

  /** Ids a worker has read from the index and may still try, or may still put back there late. */
  predicate Remembers(pc: Pc, id: JobId) {
    match pc
    case FailIndex(job) => job.id == id
    case AcquireMget(_, _, _, ids) => id in ids
    case AcquireEval(_, _, _, candidates) => exists j :: j in candidates && j.id == id
    case _ => false
  }

  function StatusOf(s: State, id: JobId): Option<Status> {
    if id in s.records then Some(s.records[id].status) else None
  }
}
