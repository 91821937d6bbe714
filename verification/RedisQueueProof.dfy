/** What every step of the Redis queue protocol keeps, and what follows for whole runs. */
module RedisQueueProof {
  import opened OptionType
  import opened JobRecord
  import opened RedisQueue
  import opened StableSort

  // ---- history ---------------------------------------------------------------------------

  /** The latest event about a job. */
  function Last(h: seq<Event>, id: JobId): Option<Event> {
    if h == [] then None
    else if h[|h| - 1].id == id then Some(h[|h| - 1])
    else Last(h[..|h| - 1], id)
  }

  lemma LastAppend(h: seq<Event>, e: Event)
    ensures forall id :: Last(h + [e], id) == if e.id == id then Some(e) else Last(h, id)
  {
    assert (h + [e])[..|h|] == h;
  }

  /** An event is legal after `last`: only the owner settles a job, only a retry reopens it. */
  predicate Legal(last: Option<Event>, e: Event) {
    match e
    case Acquired(_, _) => last.None? || last.value.Requeued?
    case Requeued(w, id) => last == Some(Acquired(w, id))
    case Finished(w, id) => last == Some(Acquired(w, id))
  }

  ghost predicate LegalHistory(h: seq<Event>) {
    forall n :: 0 <= n < |h| ==> Legal(Last(h[..n], h[n].id), h[n])
  }

  lemma LegalAppend(h: seq<Event>, e: Event)
    requires LegalHistory(h) && Legal(Last(h, e.id), e)
    ensures LegalHistory(h + [e])
  {
    assert (h + [e])[..|h|] == h;
    forall n | 0 <= n < |h| ensures (h + [e])[..n] == h[..n] {}
  }

  // ---- the invariant ---------------------------------------------------------------------

  ghost predicate PcOk(s: State, pc: Pc) {
    && (forall id :: Owns(pc, id) ==> StatusOf(s, id) == Some(Running))
    && (forall id :: Enqueues(pc, id) ==> id in s.issued && id !in s.records)
    && (forall id :: IndexesNew(pc, id) ==> id in s.records && s.records[id] == pc.job)
    && match pc
       case SaveGet(job) => job.status == Pending || job.status == Failed
       case SaveSremOld(job, q) => job.status == Failed && (job.id in s.records ==> q == s.records[job.id].queue)
       case SaveZremOld(job, q) => job.status == Failed && (job.id in s.records ==> q == s.records[job.id].queue)
       case SaveSet(job) => job.status == Pending || job.status == Failed
       case SaveSaddAll(job) => job.status == Pending || (job.status == Failed && StatusOf(s, job.id) == Some(Failed))
       case SaveSaddQueue(job) => job.status == Pending || (job.status == Failed && StatusOf(s, job.id) == Some(Failed))
       case SaveIndex(job) => job.status == Pending || (job.status == Failed && StatusOf(s, job.id) == Some(Failed))
       case AcquireMget(_, _, _, ids) => forall id :: id in ids ==> id in s.records
       case AcquireEval(_, _, _, candidates) =>
         candidates != [] && forall j :: j in candidates ==> j.id in s.records
       case Handling(job) => job.id in s.records && s.records[job.id] == job
       case CompleteSet(job) => job.status == Completed && (job.id in s.records ==> job.queue == s.records[job.id].queue)
       case CompleteZrem(job) => StatusOf(s, job.id) == Some(Completed)
       case FailSet(job) =>
         (job.status == Pending || job.status == Failed) && (job.id in s.records ==> job.queue == s.records[job.id].queue)
       case FailIndex(job) =>
         job.id in s.records && (job.status == Pending || (job.status == Failed && StatusOf(s, job.id) == Some(Failed)))
       case _ => true
  }

  /** Names are consistent: a record is stored under its own id, and the index names only records. */
  ghost predicate NamesOk(s: State) {
    && (forall id :: id in s.records ==> s.records[id].id == id && id in s.issued)
    && (forall q, id :: id in Zset(s, q) ==> id in s.records)
  }

  /** At most one owner, at most one enqueuer per job. */
  ghost predicate Exclusive(s: State) {
    && (forall v, w, id :: Owns(PcOf(s, v), id) && Owns(PcOf(s, w), id) ==> v == w)
    && (forall v, w, id :: Enqueues(PcOf(s, v), id) && Enqueues(PcOf(s, w), id) ==> v == w)
  }

  /** A job being indexed for the first time is known to its enqueuer alone. */
  ghost predicate NewUnseen(s: State) {
    forall w, id :: IndexesNew(PcOf(s, w), id) ==>
      && (forall q :: id !in Zset(s, q))
      && (forall v :: !Remembers(PcOf(s, v), id))
      && (forall v :: IndexesNew(PcOf(s, v), id) ==> v == w)
  }

  ghost predicate BeingIndexed(s: State, id: JobId, q: QueueName) {
    exists w :: Indexes(PcOf(s, w), id, q)
  }

  /** No pending job is lost. */
  ghost predicate Findable(s: State) {
    forall id :: StatusOf(s, id) == Some(Pending) ==>
      id in Zset(s, s.records[id].queue) || BeingIndexed(s, id, s.records[id].queue)
  }

  /** The history's last word on a job agrees with its record and its owner. */
  ghost predicate Settled(s: State, id: JobId) {
    match Last(s.history, id)
    case None => StatusOf(s, id) == None || StatusOf(s, id) == Some(Pending)
    case Some(Acquired(w, _)) => Owns(PcOf(s, w), id)
    case Some(Requeued(_, _)) => StatusOf(s, id) == Some(Pending)
    case Some(Finished(_, _)) => StatusOf(s, id) == Some(Completed) || StatusOf(s, id) == Some(Failed)
  }

  ghost predicate HistoryOk(s: State) {
    LegalHistory(s.history) && forall id :: Settled(s, id)
  }

  ghost predicate Inv(s: State) {
    && NamesOk(s)
    && (forall w :: PcOk(s, PcOf(s, w)))
    && Exclusive(s)
    && NewUnseen(s)
    && Findable(s)
    && HistoryOk(s)
  }

  lemma InvInit(s: State)
    requires Init(s)
    ensures Inv(s)
  {}

  /** One worker moved: everybody else stands where they stood. */
  lemma Moved(s: State, t: State, w: WorkerId, pc: Pc)
    requires t.workers == s.workers[w := pc]
    ensures forall v {:trigger PcOf(t, v)} :: PcOf(t, v) == if v == w then pc else PcOf(s, v)
    ensures forall v {:trigger PcOf(s, v)} :: PcOf(t, v) == if v == w then pc else PcOf(s, v)
  {}

  lemma ZsetsMoved(s: State, t: State, q: QueueName, z: map<JobId, int>)
    requires t.zsets == s.zsets[q := z]
    ensures forall r {:trigger Zset(t, r)} :: Zset(t, r) == if r == q then z else Zset(s, r)
    ensures forall r {:trigger Zset(s, r)} :: Zset(t, r) == if r == q then z else Zset(s, r)
  {}

  // ---- steps that write nothing the invariant reads --------------------------------------

  /** The worker's stake in every job is the same at both positions. */
  ghost predicate SameStake(p: Pc, r: Pc) {
    && (forall id :: Owns(p, id) == Owns(r, id))
    && (forall id :: IndexesNew(p, id) == IndexesNew(r, id))
    && (forall id, q :: Indexes(p, id, q) == Indexes(r, id, q))
  }

  lemma FindableQuiet(s: State, t: State, w: WorkerId, pc: Pc)
    requires Findable(s) && t.workers == s.workers[w := pc]
    requires t.records == s.records && t.zsets == s.zsets
    requires SameStake(PcOf(s, w), pc)
    ensures Findable(t)
  {
    Moved(s, t, w, pc);
    forall id | StatusOf(t, id) == Some(Pending) && id !in Zset(t, t.records[id].queue)
      ensures BeingIndexed(t, id, t.records[id].queue)
    {
      assert StatusOf(s, id) == Some(Pending) && id !in Zset(s, s.records[id].queue);
      var v :| Indexes(PcOf(s, v), id, s.records[id].queue);
      assert Indexes(PcOf(t, v), id, t.records[id].queue);
    }
  }

  lemma ExclusiveMoved(s: State, t: State, w: WorkerId, pc: Pc)
    requires Exclusive(s) && t.workers == s.workers[w := pc]
    requires forall id, v :: Owns(pc, id) && v != w ==> !Owns(PcOf(s, v), id)
    requires forall id, v :: Enqueues(pc, id) && v != w ==> !Enqueues(PcOf(s, v), id)
    ensures Exclusive(t)
  {
    Moved(s, t, w, pc);
  }

  /** Nobody else's position becomes wrong when records only change as the protocol lets them. */
  lemma OthersOk(s: State, t: State, w: WorkerId, pc: Pc)
    requires (forall v :: PcOk(s, PcOf(s, v))) && t.workers == s.workers[w := pc]
    requires forall v :: v != w ==> PcOk(s, PcOf(s, v)) ==> PcOk(t, PcOf(s, v))
    requires PcOk(t, pc)
    ensures forall v :: PcOk(t, PcOf(t, v))
  {
    Moved(s, t, w, pc);
  }

  lemma PcOkQuiet(s: State, t: State, pc: Pc)
    requires PcOk(s, pc) && t.records == s.records && s.issued <= t.issued
    ensures PcOk(t, pc)
  {
    assert forall id :: StatusOf(t, id) == StatusOf(s, id);
  }

  lemma HistoryQuiet(s: State, t: State, w: WorkerId, pc: Pc)
    requires HistoryOk(s) && t.workers == s.workers[w := pc]
    requires t.records == s.records && t.history == s.history
    requires forall id :: Owns(PcOf(s, w), id) ==> Owns(pc, id)
    ensures HistoryOk(t)
  {
    Moved(s, t, w, pc);
    forall id ensures Settled(t, id) {
      assert Settled(s, id);
      assert StatusOf(t, id) == StatusOf(s, id);
    }
  }

  lemma UnseenMoved(s: State, t: State, w: WorkerId, pc: Pc)
    requires NewUnseen(s) && t.workers == s.workers[w := pc] && t.zsets == s.zsets
    requires forall id :: IndexesNew(pc, id) ==> IndexesNew(PcOf(s, w), id)
    requires forall id, v :: Remembers(pc, id) ==> !IndexesNew(PcOf(s, v), id)
    ensures NewUnseen(t)
  {
    Moved(s, t, w, pc);
    assert forall q :: Zset(t, q) == Zset(s, q);
  }

  lemma Quiet(s: State, t: State, w: WorkerId, pc: Pc)
    requires Inv(s) && t.workers == s.workers[w := pc]
    requires t.records == s.records && t.zsets == s.zsets && t.history == s.history && s.issued <= t.issued
    requires SameStake(PcOf(s, w), pc) && PcOk(t, pc)
    requires forall id :: Enqueues(pc, id) ==> Enqueues(PcOf(s, w), id) || id !in s.issued
    requires forall id, v :: Remembers(pc, id) ==> !IndexesNew(PcOf(s, v), id)
    ensures Inv(t)
  {
    FindableQuiet(s, t, w, pc);
    HistoryQuiet(s, t, w, pc);
    UnseenMoved(s, t, w, pc);
    forall v | v != w && PcOk(s, PcOf(s, v)) ensures PcOk(t, PcOf(s, v)) { PcOkQuiet(s, t, PcOf(s, v)); }
    OthersOk(s, t, w, pc);
    assert Exclusive(t) by {
      forall id, v | Enqueues(pc, id) && v != w ensures !Enqueues(PcOf(s, v), id) { assert PcOk(s, PcOf(s, v)); }
      ExclusiveMoved(s, t, w, pc);
    }
    assert NamesOk(t) by { assert forall q :: Zset(t, q) == Zset(s, q); }
  }

  lemma InvEnqueue(s: State, t: State, w: WorkerId, job: Job)
    requires Inv(s) && Next(s, t, Enqueue(w, job))
    ensures Inv(t)
  {
    assert PcOk(s, PcOf(s, w));
    hide Inv, HistoryOk, Exclusive, NewUnseen, Findable;
    Quiet(s, t, w, PcOf(t, w));
  }

  lemma InvPoll(s: State, t: State, w: WorkerId, queue: QueueName, lockMs: int)
    requires Inv(s) && Next(s, t, Poll(w, queue, lockMs))
    ensures Inv(t)
  {
    assert PcOk(s, PcOf(s, w));
    hide Inv, HistoryOk, Exclusive, NewUnseen, Findable;
    Quiet(s, t, w, PcOf(t, w));
  }

  lemma InvRange(s: State, t: State, w: WorkerId, ids: seq<JobId>)
    requires Inv(s) && Next(s, t, Range(w, ids))
    ensures Inv(t)
  {
    assert PcOk(s, PcOf(s, w));
    hide Inv, HistoryOk, Exclusive, NewUnseen, Findable;
    Quiet(s, t, w, PcOf(t, w));
  }

  lemma InvHandlerOk(s: State, t: State, w: WorkerId)
    requires Inv(s) && Next(s, t, HandlerOk(w))
    ensures Inv(t)
  {
    assert PcOk(s, PcOf(s, w));
    hide Inv, HistoryOk, Exclusive, NewUnseen, Findable;
    Quiet(s, t, w, PcOf(t, w));
  }

  lemma InvHandlerFailed(s: State, t: State, w: WorkerId, error: string, dlq: Option<QueueName>, retryDelay: int)
    requires Inv(s) && Next(s, t, HandlerFailed(w, error, dlq, retryDelay))
    ensures Inv(t)
  {
    assert PcOk(s, PcOf(s, w));
    hide Inv, HistoryOk, Exclusive, NewUnseen, Findable;
    Quiet(s, t, w, PcOf(t, w));
  }

  lemma InvSaveGet(s: State, w: WorkerId)
    requires Inv(s) && PcOf(s, w).SaveGet?
    ensures Inv(RunCommand(s, w))
  {
    var t := RunCommand(s, w);
    assert PcOk(s, PcOf(s, w));
    hide Inv, HistoryOk, Exclusive, NewUnseen, Findable;
    Quiet(s, t, w, PcOf(t, w));
  }

  lemma InvSaveSremOld(s: State, w: WorkerId)
    requires Inv(s) && PcOf(s, w).SaveSremOld?
    ensures Inv(RunCommand(s, w))
  {
    var t := RunCommand(s, w);
    assert PcOk(s, PcOf(s, w));
    hide Inv, HistoryOk, Exclusive, NewUnseen, Findable;
    Quiet(s, t, w, PcOf(t, w));
  }

  lemma InvSaveSaddAll(s: State, w: WorkerId)
    requires Inv(s) && PcOf(s, w).SaveSaddAll?
    ensures Inv(RunCommand(s, w))
  {
    var t := RunCommand(s, w);
    assert PcOk(s, PcOf(s, w));
    hide Inv, HistoryOk, Exclusive, NewUnseen, Findable;
    Quiet(s, t, w, PcOf(t, w));
  }

  lemma InvSaveSaddQueue(s: State, w: WorkerId)
    requires Inv(s) && PcOf(s, w).SaveSaddQueue?
    ensures Inv(RunCommand(s, w))
  {
    var t := RunCommand(s, w);
    assert PcOk(s, PcOf(s, w));
    hide Inv, HistoryOk, Exclusive, NewUnseen, Findable;
    Quiet(s, t, w, PcOf(t, w));
  }

  lemma InvCompleteGet(s: State, w: WorkerId)
    requires Inv(s) && PcOf(s, w).CompleteGet?
    ensures Inv(RunCommand(s, w))
  {
    var t := RunCommand(s, w);
    assert PcOk(s, PcOf(s, w));
    hide Inv, HistoryOk, Exclusive, NewUnseen, Findable;
    Quiet(s, t, w, PcOf(t, w));
  }

  lemma InvFailGet(s: State, w: WorkerId)
    requires Inv(s) && PcOf(s, w).FailGet?
    ensures Inv(RunCommand(s, w))
  {
    var t := RunCommand(s, w);
    assert PcOk(s, PcOf(s, w));
    hide Inv, HistoryOk, Exclusive, NewUnseen, Findable;
    Quiet(s, t, w, PcOf(t, w));
  }

  lemma CandidatesKnown(s: State, w: WorkerId, candidates: seq<Job>)
    requires Inv(s) && PcOf(s, w).AcquireMget?
    requires candidates == Sort(CandidateBefore, DueRecords(s.records, PcOf(s, w).ids, PcOf(s, w).now))
    ensures forall j :: j in candidates ==> j.id in s.records && forall v :: !IndexesNew(PcOf(s, v), j.id)
  {
    var due := DueRecords(s.records, PcOf(s, w).ids, PcOf(s, w).now);
    forall j | j in candidates ensures j.id in s.records && forall v :: !IndexesNew(PcOf(s, v), j.id) {
      assert j in multiset(candidates) && multiset(candidates) == multiset(due);
      assert j in due;
      assert Remembers(PcOf(s, w), j.id);
    }
  }

  lemma InvAcquireMget(s: State, w: WorkerId)
    requires Inv(s) && PcOf(s, w).AcquireMget?
    ensures Inv(RunCommand(s, w))
  {
    var t := RunCommand(s, w);
    var candidates := Sort(CandidateBefore, DueRecords(s.records, PcOf(s, w).ids, PcOf(s, w).now));
    CandidatesKnown(s, w, candidates);
    MoveToEval(s, t, w, PcOf(t, w));
  }

  /** A worker without any stake moves to Idle or to a candidate list. */
  lemma MoveToEval(s: State, t: State, w: WorkerId, pc: Pc)
    requires Inv(s) && t == Move(s, w, pc)
    requires PcOf(s, w).AcquireMget? || PcOf(s, w).AcquireEval?
    requires pc.Idle? || (pc.AcquireEval? && pc.candidates != [])
    requires pc.AcquireEval? ==>
      forall j :: j in pc.candidates ==> j.id in s.records && forall v :: !IndexesNew(PcOf(s, v), j.id)
    ensures Inv(t)
  {
    Quiet(s, t, w, pc);
  }

  // ---- steps that change an index --------------------------------------------------------

  lemma Unindex(s: State, t: State, w: WorkerId, pc: Pc, q: QueueName, id: JobId)
    requires Inv(s) && t.workers == s.workers[w := pc] && t.zsets == s.zsets[q := Zset(s, q) - {id}]
    requires t.records == s.records && t.history == s.history && t.issued == s.issued
    requires StatusOf(s, id) != Some(Pending)
    requires SameStake(PcOf(s, w), pc) && PcOk(t, pc)
    requires forall i :: !Enqueues(pc, i) && !Remembers(pc, i)
    ensures Inv(t)
  {
    var u := t.(zsets := s.zsets);
    PcOkQuiet(t, u, pc);
    Quiet(s, u, w, pc);
    ZsetsMoved(u, t, q, Zset(s, q) - {id});
    Reframe(u, t);
    forall i | StatusOf(t, i) == Some(Pending) && i !in Zset(t, t.records[i].queue)
      ensures BeingIndexed(t, i, t.records[i].queue)
    {
      assert StatusOf(u, i) == Some(Pending) && i !in Zset(u, u.records[i].queue);
      var v :| Indexes(PcOf(u, v), i, u.records[i].queue);
      assert Indexes(PcOf(t, v), i, t.records[i].queue);
    }
  }

  lemma IndexFindable(s: State, t: State, w: WorkerId, q: QueueName, score: int, id: JobId)
    requires Findable(s) && t.workers == s.workers[w := Idle] && t.zsets == s.zsets[q := Zset(s, q)[id := score]]
    requires t.records == s.records && Indexes(PcOf(s, w), id, q)
    ensures Findable(t)
  {
    Moved(s, t, w, Idle);
    ZsetsMoved(s, t, q, Zset(s, q)[id := score]);
    forall i | StatusOf(t, i) == Some(Pending) && i !in Zset(t, t.records[i].queue)
      ensures BeingIndexed(t, i, t.records[i].queue)
    {
      assert StatusOf(s, i) == Some(Pending) && i !in Zset(s, s.records[i].queue);
      var v :| Indexes(PcOf(s, v), i, s.records[i].queue);
      assert Indexes(PcOf(t, v), i, t.records[i].queue);
    }
  }

  lemma IndexUnseen(s: State, t: State, w: WorkerId, q: QueueName, score: int, id: JobId)
    requires NewUnseen(s) && t.workers == s.workers[w := Idle] && t.zsets == s.zsets[q := Zset(s, q)[id := score]]
    requires Indexes(PcOf(s, w), id, q)
    ensures NewUnseen(t)
  {
    Moved(s, t, w, Idle);
    ZsetsMoved(s, t, q, Zset(s, q)[id := score]);
    forall v, i | IndexesNew(PcOf(t, v), i) ensures i != id {
      assert v != w && IndexesNew(PcOf(s, v), i);
      assert Remembers(PcOf(s, w), id) || IndexesNew(PcOf(s, w), id);
    }
  }

  lemma Index(s: State, t: State, w: WorkerId, q: QueueName, score: int, id: JobId)
    requires Inv(s) && t.workers == s.workers[w := Idle] && t.zsets == s.zsets[q := Zset(s, q)[id := score]]
    requires t.records == s.records && t.history == s.history && t.issued == s.issued
    requires Indexes(PcOf(s, w), id, q)
    ensures Inv(t)
  {
    assert PcOk(s, PcOf(s, w));
    IndexFindable(s, t, w, q, score, id);
    IndexUnseen(s, t, w, q, score, id);
    forall v | v != w && PcOk(s, PcOf(s, v)) ensures PcOk(t, PcOf(s, v)) { PcOkQuiet(s, t, PcOf(s, v)); }
    OthersOk(s, t, w, Idle);
    ExclusiveMoved(s, t, w, Idle);
    HistoryQuiet(s, t, w, Idle);
    assert NamesOk(t) by { ZsetsMoved(s, t, q, Zset(s, q)[id := score]); }
  }

  /** Only the index differs: what the invariant says about workers and records carries over. */
  lemma Reframe(s: State, t: State)
    requires t == s.(zsets := t.zsets, clock := t.clock) && Inv(s)
    requires forall q, id :: id in Zset(t, q) ==> id in Zset(s, q)
    ensures NamesOk(t) && (forall w :: PcOk(t, PcOf(t, w))) && Exclusive(t) && NewUnseen(t) && HistoryOk(t)
  {
    assert forall v :: PcOf(t, v) == PcOf(s, v);
    forall v ensures PcOk(t, PcOf(t, v)) { assert PcOk(s, PcOf(s, v)); PcOkQuiet(s, t, PcOf(s, v)); }
    forall id ensures Settled(t, id) { assert Settled(s, id); assert StatusOf(t, id) == StatusOf(s, id); }
  }

  lemma InvSaveIndex(s: State, w: WorkerId)
    requires Inv(s) && PcOf(s, w).SaveIndex?
    ensures Inv(RunCommand(s, w))
  {
    var t := RunCommand(s, w);
    assert PcOk(s, PcOf(s, w));
    var job := PcOf(s, w).job;
    if job.status == Pending { Index(s, t, w, job.queue, job.runAt, job.id); }
    else { Unindex(s, t, w, Idle, job.queue, job.id); }
  }

  lemma InvFailIndex(s: State, w: WorkerId)
    requires Inv(s) && PcOf(s, w).FailIndex?
    ensures Inv(RunCommand(s, w))
  {
    var t := RunCommand(s, w);
    assert PcOk(s, PcOf(s, w));
    var job := PcOf(s, w).job;
    if job.status == Pending { Index(s, t, w, job.queue, job.runAt, job.id); }
    else { Unindex(s, t, w, Idle, job.queue, job.id); }
  }

  lemma InvCompleteZrem(s: State, w: WorkerId)
    requires Inv(s) && PcOf(s, w).CompleteZrem?
    ensures Inv(RunCommand(s, w))
  {
    var t := RunCommand(s, w);
    assert PcOk(s, PcOf(s, w));
    Unindex(s, t, w, Idle, PcOf(s, w).job.queue, PcOf(s, w).job.id);
  }

  lemma InvSaveZremOld(s: State, w: WorkerId)
    requires Inv(s) && PcOf(s, w).SaveZremOld?
    ensures Inv(RunCommand(s, w))
  {
    var t := RunCommand(s, w);
    assert PcOk(s, PcOf(s, w));
    var job := PcOf(s, w).job;
    assert Owns(PcOf(s, w), job.id);
    Unindex(s, t, w, PcOf(t, w), PcOf(s, w).oldQueue, job.id);
  }

  // ---- steps that write a record ---------------------------------------------------------

  lemma PcOkWrite(s: State, t: State, pc: Pc, id: JobId)
    requires PcOk(s, pc) && id in t.records && t.records == s.records[id := t.records[id]] && s.issued == t.issued
    requires !Owns(pc, id) && !Enqueues(pc, id) && !IndexesNew(pc, id)
    requires StatusOf(s, id) != Some(Completed) && StatusOf(s, id) != Some(Failed)
    ensures PcOk(t, pc)
  {
    assert forall i :: i != id ==> StatusOf(t, i) == StatusOf(s, i);
  }

  lemma HistoryWrite(s: State, t: State, w: WorkerId, e: Event)
    requires HistoryOk(s) && t.history == s.history + [e] && e.worker == w
    requires t.workers == s.workers[w := PcOf(t, w)]
    requires Legal(Last(s.history, e.id), e) && Settled(t.(history := [e]), e.id)
    requires forall i :: i != e.id ==> StatusOf(t, i) == StatusOf(s, i)
    requires forall i :: i != e.id ==> Owns(PcOf(s, w), i) ==> Owns(PcOf(t, w), i)
    ensures HistoryOk(t)
  {
    Moved(s, t, w, PcOf(t, w));
    LastAppend(s.history, e);
    LastAppend([], e);
    assert [] + [e] == [e];
    LegalAppend(s.history, e);
    var u := t.(history := [e]);
    forall v ensures PcOf(u, v) == PcOf(t, v) {}
    forall i ensures Settled(t, i) {
      if i == e.id {
        assert Settled(u, i);
        assert StatusOf(u, i) == StatusOf(t, i);
      } else {
        assert Settled(s, i);
      }
    }
  }

  /** A worker writes the record of a job nobody else has a stake in. */
  lemma Write(s: State, t: State, w: WorkerId, id: JobId)
    requires Inv(s) && t.workers == s.workers[w := PcOf(t, w)] && t.issued == s.issued && id in s.issued
    requires id in t.records && t.records == s.records[id := t.records[id]] && t.records[id].id == id
    requires forall q, i :: i in Zset(t, q) ==> i in Zset(s, q)
    requires forall q, i :: i in Zset(s, q) && i != id ==> i in Zset(t, q)
    requires StatusOf(s, id) != Some(Completed) && StatusOf(s, id) != Some(Failed)
    requires forall v :: v != w ==>
      !Owns(PcOf(s, v), id) && !Enqueues(PcOf(s, v), id) && !IndexesNew(PcOf(s, v), id)
    requires PcOk(t, PcOf(t, w)) && HistoryOk(t)
    requires forall i :: !Enqueues(PcOf(t, w), i)
    requires forall i :: Owns(PcOf(t, w), i) ==> i == id
    requires forall i :: IndexesNew(PcOf(t, w), i) ==> i == id && id !in s.records && forall v :: !Remembers(PcOf(s, v), i)
    requires forall i :: Remembers(PcOf(t, w), i) ==> i == id
    requires forall i, q :: Indexes(PcOf(s, w), i, q) ==> i == id
    requires t.records[id].status == Pending ==> Indexes(PcOf(t, w), id, t.records[id].queue)
    ensures Inv(t)
  {
    Moved(s, t, w, PcOf(t, w));
    forall v | v != w && PcOk(s, PcOf(s, v)) ensures PcOk(t, PcOf(s, v)) { PcOkWrite(s, t, PcOf(s, v), id); }
    OthersOk(s, t, w, PcOf(t, w));
    ExclusiveMoved(s, t, w, PcOf(t, w));
    WriteFindable(s, t, w, id);
    assert NewUnseen(t) by {
      hide PcOk, HistoryOk, Exclusive, Findable, NamesOk;
      forall v, i | IndexesNew(PcOf(t, v), i) && v != w ensures i != id {}
    }
    assert NamesOk(t) by { hide PcOk, HistoryOk, Exclusive, Findable, NewUnseen; }
  }

  lemma WriteFindable(s: State, t: State, w: WorkerId, id: JobId)
    requires Findable(s) && t.workers == s.workers[w := PcOf(t, w)]
    requires id in t.records && t.records == s.records[id := t.records[id]]
    requires forall q, i :: i in Zset(s, q) && i != id ==> i in Zset(t, q)
    requires forall i, q :: Indexes(PcOf(s, w), i, q) ==> i == id
    requires t.records[id].status == Pending ==> Indexes(PcOf(t, w), id, t.records[id].queue)
    ensures Findable(t)
  {
    Moved(s, t, w, PcOf(t, w));
    forall i | StatusOf(t, i) == Some(Pending) && i !in Zset(t, t.records[i].queue)
      ensures BeingIndexed(t, i, t.records[i].queue)
    {
      if i == id { assert Indexes(PcOf(t, w), i, t.records[i].queue); } else {
        assert StatusOf(s, i) == Some(Pending) && i !in Zset(s, s.records[i].queue);
        var v :| Indexes(PcOf(s, v), i, s.records[i].queue);
        assert Indexes(PcOf(t, v), i, t.records[i].queue);
      }
    }
  }

  lemma OwnerIsLast(s: State, w: WorkerId, id: JobId)
    requires Inv(s) && Owns(PcOf(s, w), id)
    ensures Last(s.history, id) == Some(Acquired(w, id))
  {
    assert PcOk(s, PcOf(s, w)) && Settled(s, id);
    LastNames(s.history, id);
  }

  lemma LastNames(h: seq<Event>, id: JobId)
    ensures Last(h, id).Some? ==> Last(h, id).value.id == id
  {}

  lemma NewRecordUnseen(s: State, id: JobId)
    requires Inv(s) && id !in s.records
    ensures forall v :: !Remembers(PcOf(s, v), id) && !Owns(PcOf(s, v), id) && !IndexesNew(PcOf(s, v), id)
    ensures forall q :: id !in Zset(s, q)
  {
    forall v ensures !Remembers(PcOf(s, v), id) && !Owns(PcOf(s, v), id) && !IndexesNew(PcOf(s, v), id) {
      assert PcOk(s, PcOf(s, v));
    }
  }

  lemma InvSaveSetNew(s: State, w: WorkerId)
    requires Inv(s) && PcOf(s, w).SaveSet? && PcOf(s, w).job.status == Pending
    ensures Inv(RunCommand(s, w))
  {
    var t := RunCommand(s, w);
    var job := PcOf(s, w).job;
    assert PcOk(s, PcOf(s, w)) && Enqueues(PcOf(s, w), job.id);
    NewRecordUnseen(s, job.id);
    assert HistoryOk(t) by {
      Moved(s, t, w, PcOf(t, w));
      forall i ensures Settled(t, i) { assert Settled(s, i); }
    }
    Write(s, t, w, job.id);
  }

  lemma OwnerAlone(s: State, w: WorkerId, id: JobId)
    requires Inv(s) && Owns(PcOf(s, w), id)
    ensures StatusOf(s, id) == Some(Running) && id in s.issued
    ensures forall v :: v != w ==> !Owns(PcOf(s, v), id) && !Enqueues(PcOf(s, v), id) && !IndexesNew(PcOf(s, v), id)
  {
    hide HistoryOk, Findable;
    assert PcOk(s, PcOf(s, w));
    forall v | v != w ensures !Owns(PcOf(s, v), id) && !Enqueues(PcOf(s, v), id) && !IndexesNew(PcOf(s, v), id) {
      assert PcOk(s, PcOf(s, v));
    }
  }

  /** The owner writes the record that gives the job up, and logs it. */
  lemma WriteOwned(s: State, w: WorkerId, job: Job, next: Pc, e: Event)
    requires Inv(s) && Owns(PcOf(s, w), job.id)
    requires (next == SaveSaddAll(job) && job.status == Failed) || (next == CompleteZrem(job) && job.status == Completed)
      || (next == FailIndex(job) && (job.status == Failed || job.status == Pending))
    requires e == if job.status == Pending then Requeued(w, job.id) else Finished(w, job.id)
    ensures Inv(WriteRecord(s, w, job, next, e))
  {
    var t := WriteRecord(s, w, job, next, e);
    OwnerAlone(s, w, job.id);
    OwnedHistory(s, w, job, next, e);
    OwnedPcOk(s, w, job, next, e);
    assert PcOf(t, w) == next && t.workers == s.workers[w := next];
    assert forall q :: Zset(t, q) == Zset(s, q);
    hide Inv, HistoryOk, PcOk, Settled, WriteRecord;
    Write(s, t, w, job.id);
  }

  lemma OwnedHistory(s: State, w: WorkerId, job: Job, next: Pc, e: Event)
    requires Inv(s) && Owns(PcOf(s, w), job.id) && StatusOf(s, job.id) == Some(Running)
    requires (next == SaveSaddAll(job) && job.status == Failed) || (next == CompleteZrem(job) && job.status == Completed)
      || (next == FailIndex(job) && (job.status == Failed || job.status == Pending))
    requires e == if job.status == Pending then Requeued(w, job.id) else Finished(w, job.id)
    ensures HistoryOk(WriteRecord(s, w, job, next, e))
  {
    var t := WriteRecord(s, w, job, next, e);
    OwnerIsLast(s, w, job.id);
    assert HistoryOk(s);
    assert PcOf(t, w) == next;
    hide Inv, HistoryOk, PcOk;
    HistoryWrite(s, t, w, e);
  }

  lemma OwnedPcOk(s: State, w: WorkerId, job: Job, next: Pc, e: Event)
    requires (next == SaveSaddAll(job) && job.status == Failed) || (next == CompleteZrem(job) && job.status == Completed)
      || (next == FailIndex(job) && (job.status == Failed || job.status == Pending))
    ensures PcOk(WriteRecord(s, w, job, next, e), next)
  {}

  lemma InvSaveSetFailed(s: State, w: WorkerId)
    requires Inv(s) && PcOf(s, w).SaveSet? && PcOf(s, w).job.status != Pending
    ensures Inv(RunCommand(s, w))
  {
    var job := PcOf(s, w).job;
    assert PcOk(s, PcOf(s, w));
    WriteOwned(s, w, job, SaveSaddAll(job), Finished(w, job.id));
  }

  lemma InvCompleteSet(s: State, w: WorkerId)
    requires Inv(s) && PcOf(s, w).CompleteSet?
    ensures Inv(RunCommand(s, w))
  {
    var job := PcOf(s, w).job;
    assert PcOk(s, PcOf(s, w));
    WriteOwned(s, w, job, CompleteZrem(job), Finished(w, job.id));
  }

  lemma InvFailSet(s: State, w: WorkerId)
    requires Inv(s) && PcOf(s, w).FailSet?
    ensures Inv(RunCommand(s, w))
  {
    var job := PcOf(s, w).job;
    assert PcOk(s, PcOf(s, w));
    WriteOwned(s, w, job, FailIndex(job), if job.status == Pending then Requeued(w, job.id) else Finished(w, job.id));
  }

  predicate Lockable(s: State, pc: Pc) {
    && pc.AcquireEval? && pc.candidates != []
    && StatusOf(s, pc.candidates[0].id) == Some(Pending)
    && s.records[pc.candidates[0].id].runAt <= pc.now
  }

  lemma LockableAlone(s: State, w: WorkerId, id: JobId)
    requires Inv(s) && Remembers(PcOf(s, w), id) && StatusOf(s, id) == Some(Pending)
    ensures forall v :: !Owns(PcOf(s, v), id) && !Enqueues(PcOf(s, v), id) && !IndexesNew(PcOf(s, v), id)
    ensures Legal(Last(s.history, id), Acquired(w, id)) && id in s.issued && s.records[id].id == id
  {
    assert Settled(s, id);
    hide HistoryOk, Findable, Exclusive;
    forall v ensures !Owns(PcOf(s, v), id) && !Enqueues(PcOf(s, v), id) && !IndexesNew(PcOf(s, v), id) {
      assert PcOk(s, PcOf(s, v));
    }
  }

  lemma InvEvalLocks(s: State, w: WorkerId)
    requires Inv(s) && Lockable(s, PcOf(s, w))
    ensures Inv(RunCommand(s, w))
  {
    var pc := PcOf(s, w);
    var id := pc.candidates[0].id;
    LockableAlone(s, w, id);
    assert RunCommand(s, w) == Eval(s, w, pc);
    hide RunCommand;
    EvalLocks(s, w, pc, id);
  }

  lemma EvalLocks(s: State, w: WorkerId, pc: Pc, id: JobId)
    requires Inv(s) && pc == PcOf(s, w) && Lockable(s, pc) && id == pc.candidates[0].id
    requires forall v :: !Owns(PcOf(s, v), id) && !Enqueues(PcOf(s, v), id) && !IndexesNew(PcOf(s, v), id)
    requires Legal(Last(s.history, id), Acquired(w, id)) && id in s.issued && s.records[id].id == id
    ensures Inv(Eval(s, w, pc))
  {
    var t := Eval(s, w, pc);
    EvalIs(s, w, pc, id);
    EvalHistory(s, w, pc, id);
    hide Inv, HistoryOk, Eval, PcOk, Settled, Legal;
    Write(s, t, w, id);
  }

  /** What a successful lock script changes. */
  lemma EvalIs(s: State, w: WorkerId, pc: Pc, id: JobId)
    requires Inv(s) && pc == PcOf(s, w) && Lockable(s, pc) && id == pc.candidates[0].id && s.records[id].id == id
    ensures var t := Eval(s, w, pc);
      && id in t.records && t.records == s.records[id := t.records[id]] && t.records[id].id == id
      && t.records[id].status == Running && t.issued == s.issued
      && PcOf(t, w) == Handling(t.records[id]) && t.workers == s.workers[w := PcOf(t, w)]
      && t.history == s.history + [Acquired(w, id)]
      && (forall q, i :: i in Zset(t, q) ==> i in Zset(s, q))
      && (forall q, i :: i in Zset(s, q) && i != id ==> i in Zset(t, q))
  {
    var t := Eval(s, w, pc);
    hide Inv;
    ZsetsMoved(s, t, pc.queue, Zset(s, pc.queue) - {id});
  }

  lemma EvalHistory(s: State, w: WorkerId, pc: Pc, id: JobId)
    requires Inv(s) && pc == PcOf(s, w) && Lockable(s, pc) && id == pc.candidates[0].id && s.records[id].id == id
    requires Legal(Last(s.history, id), Acquired(w, id))
    ensures var t := Eval(s, w, pc); HistoryOk(t) && PcOk(t, PcOf(t, w))
  {
    var t := Eval(s, w, pc);
    EvalIs(s, w, pc, id);
    assert HistoryOk(s);
    hide Inv, HistoryOk, Eval, Legal;
    HistoryWrite(s, t, w, Acquired(w, id));
  }

  lemma InvEvalMisses(s: State, w: WorkerId)
    requires Inv(s) && PcOf(s, w).AcquireEval? && !Lockable(s, PcOf(s, w))
    ensures Inv(RunCommand(s, w))
  {
    var t := RunCommand(s, w);
    var pc := PcOf(s, w);
    assert PcOk(s, pc);
    forall j | j in pc.candidates ensures forall v :: !IndexesNew(PcOf(s, v), j.id) { assert Remembers(pc, j.id); }
    MoveToEval(s, t, w, PcOf(t, w));
  }

  lemma InvTick(s: State, clock: int)
    requires Inv(s)
    ensures Inv(s.(clock := clock))
  {
    var t := s.(clock := clock);
    assert forall v :: PcOf(t, v) == PcOf(s, v);
    assert forall q :: Zset(t, q) == Zset(s, q);
    Reframe(s, t);
    forall i | StatusOf(t, i) == Some(Pending) && i !in Zset(t, t.records[i].queue)
      ensures BeingIndexed(t, i, t.records[i].queue)
    {
      assert StatusOf(s, i) == Some(Pending) && i !in Zset(s, s.records[i].queue);
      var v :| Indexes(PcOf(s, v), i, s.records[i].queue);
      assert Indexes(PcOf(t, v), i, t.records[i].queue);
    }
  }

  lemma InvCommand(s: State, w: WorkerId)
    requires Inv(s)
    ensures Inv(RunCommand(s, w))
  {
    match PcOf(s, w)
    case SaveGet(_) => InvSaveGet(s, w);
    case SaveSremOld(_, _) => InvSaveSremOld(s, w);
    case SaveZremOld(_, _) => InvSaveZremOld(s, w);
    case SaveSet(job) => if job.status == Pending { InvSaveSetNew(s, w); } else { InvSaveSetFailed(s, w); }
    case SaveSaddAll(_) => InvSaveSaddAll(s, w);
    case SaveSaddQueue(_) => InvSaveSaddQueue(s, w);
    case SaveIndex(_) => InvSaveIndex(s, w);
    case AcquireMget(_, _, _, _) => InvAcquireMget(s, w);
    case AcquireEval(_, _, _, _) => if Lockable(s, PcOf(s, w)) { InvEvalLocks(s, w); } else { InvEvalMisses(s, w); }
    case CompleteGet(_) => InvCompleteGet(s, w);
    case CompleteSet(_) => InvCompleteSet(s, w);
    case CompleteZrem(_) => InvCompleteZrem(s, w);
    case FailGet(_, _, _) => InvFailGet(s, w);
    case FailSet(_) => InvFailSet(s, w);
    case FailIndex(_) => InvFailIndex(s, w);
    case _ =>
  }

  /** Every step of every worker keeps the invariant. */
  lemma InvNext(s: State, t: State, step: Step)
    requires Inv(s) && Next(s, t, step)
    ensures Inv(t)
  {
    match step
    case Tick(clock) => InvTick(s, clock);
    case Enqueue(w, job) => InvEnqueue(s, t, w, job);
    case Poll(w, queue, lockMs) => InvPoll(s, t, w, queue, lockMs);
    case Range(w, ids) => InvRange(s, t, w, ids);
    case HandlerOk(w) => InvHandlerOk(s, t, w);
    case HandlerFailed(w, error, dlq, retryDelay) => InvHandlerFailed(s, t, w, error, dlq, retryDelay);
    case Command(w) => InvCommand(s, w);
  }

  lemma {:induction false} InvRun(states: seq<State>, steps: seq<Step>, i: nat)
    requires Run(states, steps) && i < |states|
    ensures Inv(states[i])
  {
    if i == 0 {
      InvInit(states[0]);
    } else {
      InvRun(states, steps, i - 1);
      InvNext(states[i - 1], states[i], steps[i - 1]);
    }
  }
}
