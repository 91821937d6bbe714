/** Which job a worker acquires: what the candidates are, in which order they stand and are tried. */
module RedisAcquire {
  import opened OptionType
  import opened JobRecord
  import opened RedisQueue
  import opened RedisQueueProof
  import opened StableSort

  /** The record under this id is pending and due at this moment. */
  predicate Ready(records: map<JobId, Job>, id: JobId, now: int) {
    id in records && records[id].status == Pending && records[id].runAt <= now
  }

  /** The candidates are the ready records of the reply, each once. */
  ghost predicate ReadyOnesOf(records: map<JobId, Job>, ids: seq<JobId>, now: int, candidates: seq<Job>) {
    && (forall j :: j in candidates ==> j.id in ids && Ready(records, j.id, now) && records[j.id] == j)
    && (forall id :: id in ids && Ready(records, id, now) ==> records[id] in candidates)
    && (forall a, b :: 0 <= a < b < |candidates| ==> candidates[a].id != candidates[b].id)
  }

  /** Higher priorities first, earlier times first among equal priorities. */
  ghost predicate BestFirst(candidates: seq<Job>) {
    forall a, b :: 0 <= a < b < |candidates| ==>
      candidates[a].priority > candidates[b].priority
      || (candidates[a].priority == candidates[b].priority && candidates[a].runAt <= candidates[b].runAt)
  }

  ghost predicate DistinctIds(ids: seq<JobId>) {
    forall a, b :: 0 <= a < b < |ids| ==> ids[a] != ids[b]
  }

  // ---- what the worker makes of the MGET reply --------------------------------------------------------

  lemma {:induction false} DueRecordsAre(records: map<JobId, Job>, ids: seq<JobId>, now: int)
    requires DistinctIds(ids) && forall id :: id in records ==> records[id].id == id
    ensures ReadyOnesOf(records, ids, now, DueRecords(records, ids, now))
  {
    if ids != [] {
      assert DistinctIds(ids[1..]) && ids[0] !in ids[1..];
      DueRecordsAre(records, ids[1..], now);
      assert ids == [ids[0]] + ids[1..];
    }
  }

  lemma BeforeIsAnOrder()
    ensures TotalPreorder(CandidateBefore)
  {}

  lemma OrderIsBestFirst(candidates: seq<Job>)
    requires Ordered(CandidateBefore, candidates)
    ensures BestFirst(candidates)
  {
    forall a, b | 0 <= a < b < |candidates|
      ensures candidates[a].priority > candidates[b].priority
        || (candidates[a].priority == candidates[b].priority && candidates[a].runAt <= candidates[b].runAt)
    {
      assert CandidateBefore(candidates[a], candidates[b]);
    }
  }

  /** The same records in another order. */
  lemma SortedOnes(records: map<JobId, Job>, ids: seq<JobId>, now: int, found: seq<Job>, candidates: seq<Job>)
    requires ReadyOnesOf(records, ids, now, found) && multiset(candidates) == multiset(found)
    ensures ReadyOnesOf(records, ids, now, candidates)
  {
    forall j ensures j in candidates <==> j in found { assert j in multiset(candidates) <==> j in multiset(found); }
    forall a, b | 0 <= a < b < |candidates| ensures candidates[a].id != candidates[b].id {
      if candidates[a].id == candidates[b].id {
        assert candidates[a] == candidates[b];
        TwiceInSeq(candidates, a, b);
        OnceInSeq(found, candidates[a]);
      }
    }
  }

  lemma TwiceInSeq(s: seq<Job>, a: nat, b: nat)
    requires a < b < |s| && s[a] == s[b]
    ensures multiset(s)[s[a]] >= 2
  {
    assert s == s[..b] + [s[b]] + s[b + 1..];
    assert s[a] in s[..b];
  }

  lemma {:induction false} OnceInSeq(s: seq<Job>, j: Job)
    requires forall a, b :: 0 <= a < b < |s| ==> s[a].id != s[b].id
    ensures multiset(s)[j] <= 1
  {
    if s != [] {
      assert s == [s[0]] + s[1..];
      OnceInSeq(s[1..], j);
      if s[0] == j { assert j !in s[1..]; }
    }
  }

  // ---- whole runs --------------------------------------------------------------------------------------

  function Mover(step: Step): Option<WorkerId> {
    match step
    case Tick(_) => None
    case Enqueue(w, _) => Some(w)
    case Poll(w, _, _) => Some(w)
    case Range(w, _) => Some(w)
    case HandlerOk(w) => Some(w)
    case HandlerFailed(w, _, _, _) => Some(w)
    case Command(w) => Some(w)
  }

  /** The command moves its worker alone, and to no MGET. */
  ghost predicate MovesOn(s: State, w: WorkerId) {
    var t := RunCommand(s, w);
    && w in t.workers && t.workers == s.workers[w := PcOf(t, w)] && !PcOf(t, w).AcquireMget?
    && (PcOf(t, w).AcquireEval? ==> PcOf(s, w).AcquireMget? || PcOf(s, w).AcquireEval?)
  }

  lemma SavingMoves(s: State, w: WorkerId)
    requires var pc := PcOf(s, w); pc.SaveGet? || pc.SaveSremOld? || pc.SaveZremOld? || pc.SaveSet?
    ensures MovesOn(s, w)
  {
    hide Sort, DueRecords, FailedAttempt, Listed, NormalizeLock, Zset, Eval, Locked;
  }

  lemma ListingMoves(s: State, w: WorkerId)
    requires var pc := PcOf(s, w); pc.SaveSaddAll? || pc.SaveSaddQueue? || pc.SaveIndex?
    ensures MovesOn(s, w)
  {
    hide Sort, DueRecords, FailedAttempt, Listed, NormalizeLock, Zset, Eval, Locked;
  }

  lemma AcquiringMoves(s: State, w: WorkerId)
    requires PcOf(s, w).AcquireMget? || PcOf(s, w).AcquireEval?
    ensures MovesOn(s, w)
  {
    hide Sort, DueRecords, FailedAttempt, Listed, NormalizeLock, Zset, Locked;
  }

  lemma CompletingMoves(s: State, w: WorkerId)
    requires var pc := PcOf(s, w); pc.CompleteGet? || pc.CompleteSet? || pc.CompleteZrem?
    ensures MovesOn(s, w)
  {
    hide Sort, DueRecords, FailedAttempt, Listed, NormalizeLock, Zset, Eval, Locked;
  }

  lemma FailingMoves(s: State, w: WorkerId)
    requires var pc := PcOf(s, w); pc.FailGet? || pc.FailSet? || pc.FailIndex?
    ensures MovesOn(s, w)
  {
    hide Sort, DueRecords, FailedAttempt, Listed, NormalizeLock, Zset, Eval, Locked;
  }

  lemma CommandMoves(s: State, w: WorkerId)
    requires var pc := PcOf(s, w); !pc.Idle? && !pc.AcquireRange? && !pc.Handling?
    ensures MovesOn(s, w)
  {
    hide *;
    var pc := PcOf(s, w);
    if pc.SaveGet? || pc.SaveSremOld? || pc.SaveZremOld? || pc.SaveSet? { SavingMoves(s, w); }
    else if pc.SaveSaddAll? || pc.SaveSaddQueue? || pc.SaveIndex? { ListingMoves(s, w); }
    else if pc.AcquireMget? || pc.AcquireEval? { AcquiringMoves(s, w); }
    else if pc.CompleteGet? || pc.CompleteSet? || pc.CompleteZrem? { CompletingMoves(s, w); }
    else { FailingMoves(s, w); }
  }

  /** A step moves one worker. */
  lemma OneMoves(s: State, t: State, step: Step)
    requires Next(s, t, step)
    ensures match Mover(step)
      case None => t.workers == s.workers
      case Some(w) => w in t.workers && t.workers == s.workers[w := PcOf(t, w)]
  {
    hide RunCommand, Fresh, RangeReply, AfterFailure;
    if step.Command? { CommandMoves(s, step.w); }
  }

  lemma OthersStand(s: State, t: State, step: Step, w: WorkerId)
    requires Next(s, t, step) && Mover(step) != Some(w)
    ensures PcOf(t, w) == PcOf(s, w)
  {
    hide Next;
    OneMoves(s, t, step);
  }

  /** How a worker comes to stand in front of MGET, or of a further EVAL. */
  lemma CameFrom(s: State, t: State, step: Step, w: WorkerId)
    requires Next(s, t, step) && Mover(step) == Some(w)
    ensures PcOf(t, w).AcquireMget? ==>
      step.Range? && PcOf(s, w).AcquireRange? && RangeReply(Zset(s, PcOf(s, w).queue), 0, PcOf(s, w).now, step.ids)
      && PcOf(t, w).ids == step.ids && PcOf(t, w).now == PcOf(s, w).now && PcOf(t, w).queue == PcOf(s, w).queue
    ensures PcOf(t, w).AcquireEval? ==> step.Command? && (PcOf(s, w).AcquireMget? || PcOf(s, w).AcquireEval?)
  {
    hide RunCommand, Fresh, RangeReply;
    if step.Command? { CommandMoves(s, w); }
  }

  /** The ids a worker asks MGET for are those of one range reply: pending entries of its queue scored up to its clock. */
  lemma {:induction false} RepliedIds(states: seq<State>, steps: seq<Step>, i: nat, w: WorkerId) returns (k: nat)
    requires Run(states, steps) && i < |states| && PcOf(states[i], w).AcquireMget?
    ensures var pc := PcOf(states[i], w);
      k < i && steps[k] == Range(w, pc.ids) && RangeReply(Zset(states[k], pc.queue), 0, pc.now, pc.ids) && DistinctIds(pc.ids)
  {
    assert Next(states[i - 1], states[i], steps[i - 1]);
    hide Next, RangeReply;
    if Mover(steps[i - 1]) == Some(w) {
      CameFrom(states[i - 1], states[i], steps[i - 1], w);
      k := i - 1;
      ReplyIsDistinct(Zset(states[k], PcOf(states[i], w).queue), 0, PcOf(states[i], w).now, PcOf(states[i], w).ids);
    } else {
      OthersStand(states[i - 1], states[i], steps[i - 1], w);
      k := RepliedIds(states, steps, i - 1, w);
    }
  }

  lemma ReplyIsDistinct(z: map<JobId, int>, lo: int, hi: int, ids: seq<JobId>)
    requires RangeReply(z, lo, hi, ids)
    ensures DistinctIds(ids)
  {}

  /**
    After MGET the worker holds exactly the records of the reply that are pending and due at that
    moment, each once, best first; without any it goes idle.
   */
  lemma CandidatesAreTheReadyOnes(states: seq<State>, steps: seq<Step>, i: nat, w: WorkerId)
    requires Run(states, steps) && i < |steps| && steps[i] == Command(w) && PcOf(states[i], w).AcquireMget?
    ensures var s, pc, after := states[i], PcOf(states[i], w), PcOf(states[i + 1], w);
      if after.AcquireEval? then
        && after.candidates != [] && after.now == pc.now && after.queue == pc.queue && after.lockMs == pc.lockMs
        && ReadyOnesOf(s.records, pc.ids, pc.now, after.candidates) && BestFirst(after.candidates)
      else after.Idle? && forall id :: id in pc.ids ==> !Ready(s.records, id, pc.now)
  {
    var s, pc := states[i], PcOf(states[i], w);
    var found := DueRecords(s.records, pc.ids, pc.now);
    var candidates := Sort(CandidateBefore, found);
    assert Next(s, states[i + 1], steps[i]);
    InvRun(states, steps, i);
    var k := RepliedIds(states, steps, i, w);
    DueRecordsAre(s.records, pc.ids, pc.now);
    BeforeIsAnOrder();
    SortOrdered(CandidateBefore, found);
    OrderIsBestFirst(candidates);
    SortedOnes(s.records, pc.ids, pc.now, found, candidates);
    hide DueRecords, Sort, Inv, Run, BestFirst;
    assert PcOf(states[i + 1], w) == if candidates == [] then Idle else AcquireEval(pc.queue, pc.now, pc.lockMs, candidates);
    if candidates == [] { NothingReady(s.records, pc.ids, pc.now); }
  }

  lemma NothingReady(records: map<JobId, Job>, ids: seq<JobId>, now: int)
    requires ReadyOnesOf(records, ids, now, [])
    ensures forall id :: id in ids ==> !Ready(records, id, now)
  {}

  /** This EVAL was for this candidate, and found its record no longer pending and due. */
  ghost predicate TriedInVain(states: seq<State>, steps: seq<Step>, e: nat, w: WorkerId, candidates: seq<Job>, now: int) {
    && e < |steps| && e < |states| && steps[e] == Command(w) && PcOf(states[e], w).AcquireEval?
    && PcOf(states[e], w).candidates == candidates && candidates != [] && !Ready(states[e].records, candidates[0].id, now)
  }

  ghost predicate VainBetween(states: seq<State>, steps: seq<Step>, m: nat, i: nat, w: WorkerId, candidates: seq<Job>, now: int) {
    exists e :: m < e < i && TriedInVain(states, steps, e, w, candidates, now)
  }

  lemma VainLater(states: seq<State>, steps: seq<Step>, m: nat, i: nat, w: WorkerId, candidates: seq<Job>, now: int)
    requires VainBetween(states, steps, m, i, w, candidates, now)
    ensures VainBetween(states, steps, m, i + 1, w, candidates, now)
  {
    hide TriedInVain;
  }

  lemma NotAtStart(states: seq<State>, steps: seq<Step>, i: nat, w: WorkerId)
    requires Run(states, steps) && i < |states| && PcOf(states[i], w).AcquireEval?
    ensures 0 < i <= |steps| && |states| == |steps| + 1
  {}

  /** The candidates left are a rest of those of one MGET; all before them were tried in vain. */
  lemma {:induction false} TriedInTurn(states: seq<State>, steps: seq<Step>, i: nat, w: WorkerId) returns (m: nat, n: nat)
    requires Run(states, steps) && i < |states| && PcOf(states[i], w).AcquireEval?
    ensures m < i && steps[m] == Command(w) && PcOf(states[m], w).AcquireMget? && PcOf(states[m + 1], w).AcquireEval?
    ensures var all, pc := PcOf(states[m + 1], w).candidates, PcOf(states[i], w);
      && n < |all| && pc.candidates == all[n..] && pc.now == PcOf(states[m], w).now
      && forall k :: 0 <= k < n ==> VainBetween(states, steps, m, i, w, all[k..], pc.now)
  {
    hide *;
    NotAtStart(states, steps, i, w);
    StepOf(states, steps, i - 1);
    var s, t, step := states[i - 1], states[i], steps[i - 1];
    if Mover(step) != Some(w) {
      OthersStand(s, t, step, w);
      m, n := TriedInTurn(states, steps, i - 1, w);
      var all := PcOf(states[m + 1], w).candidates;
      forall k | 0 <= k < n ensures VainBetween(states, steps, m, i, w, all[k..], PcOf(t, w).now) {
        VainLater(states, steps, m, i - 1, w, all[k..], PcOf(t, w).now);
      }
    } else {
      CameFrom(s, t, step, w);
      OnlyCommands(step, w);
      if PcOf(s, w).AcquireMget? {
        m, n := i - 1, 0;
        MgetKeepsNow(s, t, w);
        assert PcOf(t, w).candidates[0..] == PcOf(t, w).candidates;
      } else {
        var before: nat;
        m, before := TriedInTurn(states, steps, i - 1, w);
        var all := PcOf(states[m + 1], w).candidates;
        MissedOne(s, t, w);
        assert all[before..][1..] == all[before + 1..];
        n := before + 1;
        VainNow(states, steps, m, i - 1, w);
        forall k | 0 <= k < n ensures VainBetween(states, steps, m, i, w, all[k..], PcOf(t, w).now) {
          if k < before { VainLater(states, steps, m, i - 1, w, all[k..], PcOf(t, w).now); }
        }
      }
    }
  }

  lemma OnlyCommands(step: Step, w: WorkerId)
    requires step.Command? && Mover(step) == Some(w)
    ensures step == Command(w)
  {}

  lemma MgetKeepsNow(s: State, t: State, w: WorkerId)
    requires Next(s, t, Command(w)) && PcOf(s, w).AcquireMget? && PcOf(t, w).AcquireEval?
    ensures PcOf(t, w).now == PcOf(s, w).now && PcOf(t, w).candidates != []
  {
    hide Sort, DueRecords;
  }

  /** Going on to a further candidate means the first was not ready. */
  lemma MissedOne(s: State, t: State, w: WorkerId)
    requires Next(s, t, Command(w)) && PcOf(s, w).AcquireEval? && PcOf(t, w).AcquireEval?
    ensures var pc := PcOf(s, w);
      && pc.candidates != [] && !Ready(s.records, pc.candidates[0].id, pc.now)
      && |pc.candidates| > 1 && PcOf(t, w).candidates == pc.candidates[1..] && PcOf(t, w).now == pc.now
  {}

  /** The script locks a candidate exactly when its record is pending and due at that moment. */
  lemma ScriptLocksExactlyWhenReady(s: State, t: State, w: WorkerId)
    requires Next(s, t, Command(w)) && PcOf(s, w).AcquireEval? && PcOf(s, w).candidates != []
    ensures PcOf(t, w).Handling? <==> Ready(s.records, PcOf(s, w).candidates[0].id, PcOf(s, w).now)
    ensures !PcOf(t, w).Handling? ==>
      && t == s.(workers := s.workers[w := PcOf(t, w)])
      && PcOf(t, w) == if |PcOf(s, w).candidates| == 1 then Idle else PcOf(s, w).(candidates := PcOf(s, w).candidates[1..])
  {}

  lemma VainNow(states: seq<State>, steps: seq<Step>, m: nat, e: nat, w: WorkerId)
    requires m < e < |steps| && e < |states| && steps[e] == Command(w) && PcOf(states[e], w).AcquireEval?
    requires PcOf(states[e], w).candidates != [] && !Ready(states[e].records, PcOf(states[e], w).candidates[0].id, PcOf(states[e], w).now)
    ensures VainBetween(states, steps, m, e + 1, w, PcOf(states[e], w).candidates, PcOf(states[e], w).now)
  {
    assert TriedInVain(states, steps, e, w, PcOf(states[e], w).candidates, PcOf(states[e], w).now);
  }

  /**
    In every run, when a worker acquires a job: some MGET before found it pending and due; the script
    finds it so again; and every candidate of that MGET before it, of higher priority or of the same
    priority and no later time, was tried since and was no longer pending and due. The record becomes
    running, locked until the worker's clock reading plus the lock time, and leaves the queue's index.
   */
  lemma AcquiresTheBestStillReady(states: seq<State>, steps: seq<Step>, i: nat, w: WorkerId) returns (m: nat, n: nat)
    requires Run(states, steps) && i < |steps| && steps[i] == Command(w)
    requires PcOf(states[i], w).AcquireEval? && PcOf(states[i + 1], w).Handling?
    ensures m < i && steps[m] == Command(w) && PcOf(states[m], w).AcquireMget? && PcOf(states[m + 1], w).AcquireEval?
    ensures var all, pc, job := PcOf(states[m + 1], w).candidates, PcOf(states[i], w), PcOf(states[i + 1], w).job;
      && n < |all| && all[n].id == job.id && BestFirst(all) && ReadyOnesOf(states[m].records, PcOf(states[m], w).ids, pc.now, all)
      && Ready(states[i].records, job.id, pc.now)
      && (forall k :: 0 <= k < n ==> VainBetween(states, steps, m, i, w, all[k..], pc.now))
      && job == states[i].records[job.id].(status := Running, lockedAt := Some(pc.now + pc.lockMs), lockExpiresAt := Some(pc.now + pc.lockMs))
      && states[i + 1].records == states[i].records[job.id := job] && job.id !in Zset(states[i + 1], pc.queue)
  {
    hide *;
    StepOf(states, steps, i);
    m, n := TriedInTurn(states, steps, i, w);
    CandidatesAreTheReadyOnes(states, steps, m, w);
    InvRun(states, steps, i);
    FiledByName(states[i]);
    Acquiring(states[i], states[i + 1], w);
  }

  lemma StepOf(states: seq<State>, steps: seq<Step>, i: nat)
    requires Run(states, steps) && i < |steps|
    ensures i + 1 < |states| && Next(states[i], states[i + 1], steps[i])
  {}

  lemma FiledByName(s: State)
    requires Inv(s)
    ensures forall id :: id in s.records ==> s.records[id].id == id
  {
    hide Findable, Exclusive, HistoryOk, NewUnseen, PcOk;
  }

  lemma Acquiring(s: State, t: State, w: WorkerId)
    requires Next(s, t, Command(w)) && PcOf(s, w).AcquireEval? && PcOf(t, w).Handling?
    requires forall id :: id in s.records ==> s.records[id].id == id
    ensures var pc, job := PcOf(s, w), PcOf(t, w).job;
      && pc.candidates != [] && pc.candidates[0].id == job.id && Ready(s.records, job.id, pc.now)
      && job == s.records[job.id].(status := Running, lockedAt := Some(pc.now + pc.lockMs), lockExpiresAt := Some(pc.now + pc.lockMs))
      && t.records == s.records[job.id := job] && job.id !in Zset(t, pc.queue)
  {}

  // ---- what the outcome of a handler writes -----------------------------------------------------------

  /** A finished handler: the record becomes completed, its lock time cleared, nothing else changed. */
  lemma CompletionWrites(s: State, t: State, w: WorkerId, id: JobId)
    requires Next(s, t, Command(w)) && PcOf(s, w) == CompleteGet(id) && id in s.records
    ensures PcOf(t, w) == CompleteSet(s.records[id].(status := Completed, lockedAt := None)) && t.records == s.records
  {}

  /**
    A failed handler: with attempts left the job is to be retried; with its attempts exhausted it goes
    to the dead-letter queue if there is one, failed and unlocked, and fails in place otherwise.
   */
  lemma FailureIsRouted(s: State, t: State, w: WorkerId, error: string, dlq: Option<QueueName>, retryDelay: int)
    requires Next(s, t, HandlerFailed(w, error, dlq, retryDelay))
    ensures var job, pc := PcOf(s, w).job, PcOf(t, w);
      if job.attempts + 1 < job.maxAttempts then pc == FailGet(job.id, error, Some(retryDelay))
      else if dlq == None then pc == FailGet(job.id, error, None)
      else
        && pc.SaveGet? && pc.job.id == job.id && pc.job.queue == dlq.value && pc.job.status == Failed
        && pc.job.attempts == job.attempts + 1 && pc.job.error == Some(error)
        && pc.job.lockedAt == None && pc.job.lockExpiresAt == None && pc.job.priority == job.priority
  {}

  /** What `fail` is about to write: one more attempt; pending again, due a delay from now, only if a retry was asked for and attempts remain. */
  lemma FailureWrites(s: State, t: State, w: WorkerId, id: JobId, error: string, retryInMs: Option<int>)
    requires Next(s, t, Command(w)) && PcOf(s, w) == FailGet(id, error, retryInMs) && id in s.records
    ensures PcOf(t, w).FailSet? && t.records == s.records
    ensures var was, job := s.records[id], PcOf(t, w).job;
      && job.id == was.id && job.queue == was.queue && job.priority == was.priority && job.maxAttempts == was.maxAttempts
      && job.attempts == was.attempts + 1 && job.error == Some(error) && job.lockedAt == None
      && if retryInMs.Some? && was.attempts + 1 < was.maxAttempts
         then job.status == Pending && job.runAt == s.clock + retryInMs.value
         else job.status == Failed && job.runAt == was.runAt
  {}

  // ---- what a save writes -------------------------------------------------------------------------------

  /** The record as it is saved: where a lock has an end, that is its lock time too. */
  predicate SavedForm(job: Job, saved: Job) {
    && saved.lockedAt == (if job.lockExpiresAt == None then job.lockedAt else job.lockExpiresAt)
    && saved == job.(lockedAt := saved.lockedAt)
  }

  /** The index of queue `q` has this score for the id, or none. */
  predicate Scored(s: State, q: QueueName, id: JobId, score: Option<int>) {
    score == if q in s.zsets && id in s.zsets[q] then Some(s.zsets[q][id]) else None
  }

  ghost predicate OnlyIndex(s: State, t: State, q: QueueName, id: JobId, score: Option<int>) {
    && t.records == s.records && t.allIds == s.allIds && t.queueIds == s.queueIds
    && forall r, x, was :: Scored(s, r, x, was) ==> Scored(t, r, x, if r == q && x == id then score else was)
  }

  lemma IndexAdded(s: State, q: QueueName, score: int, id: JobId)
    ensures OnlyIndex(s, ZAdd(s, q, score, id), q, id, Some(score))
  {}

  lemma IndexRemoved(s: State, q: QueueName, id: JobId)
    ensures OnlyIndex(s, ZRem(s, q, id), q, id, None)
  {}

  lemma MovedIndex(s: State, t: State, w: WorkerId, pc: Pc, q: QueueName, id: JobId, score: Option<int>)
    requires OnlyIndex(s, t, q, id, score)
    ensures OnlyIndex(s, Move(t, w, pc), q, id, score)
  {
    assert forall r, x, now :: Scored(Move(t, w, pc), r, x, now) <==> Scored(t, r, x, now);
  }

  /** Before the record is written: one of this id in another queue is taken off that queue's list and index. */
  lemma SavingBegins(s: State, t: State, w: WorkerId, q: QueueName, id: JobId)
    requires Next(s, t, Command(w))
    ensures match PcOf(s, w)
      case SaveGet(job) =>
        && t.records == s.records && t.zsets == s.zsets && t.allIds == s.allIds && t.queueIds == s.queueIds
        && if job.id in s.records && s.records[job.id].queue != job.queue then PcOf(t, w) == SaveSremOld(job, s.records[job.id].queue)
           else PcOf(t, w).SaveSet? && SavedForm(job, PcOf(t, w).job)
      case SaveSremOld(job, was) =>
        && t.records == s.records && t.zsets == s.zsets && t.allIds == s.allIds && PcOf(t, w) == SaveZremOld(job, was)
        && (id in Listed(t, q) <==> id in Listed(s, q) && !(q == was && id == job.id))
      case SaveZremOld(job, was) => OnlyIndex(s, t, was, job.id, None) && PcOf(t, w).SaveSet? && SavedForm(job, PcOf(t, w).job)
      case _ => true
  {
    match PcOf(s, w)
    case SaveZremOld(job, was) =>
      IndexRemoved(s, was, job.id);
      MovedIndex(s, ZRem(s, was, job.id), w, PcOf(t, w), was, job.id, None);
      hide OnlyIndex;
    case _ => hide OnlyIndex;
  }

  /** Writing the record, listing it, and putting it on its queue's index with its time, or off it if it is not pending. */
  lemma SavingWrites(s: State, t: State, w: WorkerId, q: QueueName, id: JobId)
    requires Next(s, t, Command(w))
    ensures match PcOf(s, w)
      case SaveSet(job) => t.records == s.records[job.id := job] && t.zsets == s.zsets && PcOf(t, w) == SaveSaddAll(job)
      case SaveSaddAll(job) => t.allIds == s.allIds + {job.id} && t.records == s.records && t.zsets == s.zsets && PcOf(t, w) == SaveSaddQueue(job)
      case SaveSaddQueue(job) =>
        && t.records == s.records && t.zsets == s.zsets && t.allIds == s.allIds && PcOf(t, w) == SaveIndex(job)
        && (id in Listed(t, q) <==> id in Listed(s, q) || (q == job.queue && id == job.id))
      case SaveIndex(job) => OnlyIndex(s, t, job.queue, job.id, if job.status == Pending then Some(job.runAt) else None) && PcOf(t, w) == Idle
      case _ => true
  {
    hide OnlyIndex;
    var pc := PcOf(s, w);
    if pc.SaveIndex? { IndexWritten(s, w, pc.job); }
  }

  lemma IndexWritten(s: State, w: WorkerId, job: Job)
    ensures OnlyIndex(s, Move(ZAdd(s, job.queue, job.runAt, job.id), w, Idle), job.queue, job.id, Some(job.runAt))
    ensures OnlyIndex(s, Move(ZRem(s, job.queue, job.id), w, Idle), job.queue, job.id, None)
  {
    hide *;
    IndexAdded(s, job.queue, job.runAt, job.id);
    IndexRemoved(s, job.queue, job.id);
    MovedIndex(s, ZAdd(s, job.queue, job.runAt, job.id), w, Idle, job.queue, job.id, Some(job.runAt));
    MovedIndex(s, ZRem(s, job.queue, job.id), w, Idle, job.queue, job.id, None);
  }

  /** The last commands of `complete` and `fail`: the record, then the queue's index. */
  lemma OutcomeWrites(s: State, t: State, w: WorkerId)
    requires Next(s, t, Command(w))
    ensures match PcOf(s, w)
      case CompleteSet(job) => t.records == s.records[job.id := job] && t.zsets == s.zsets && PcOf(t, w) == CompleteZrem(job)
      case CompleteZrem(job) => OnlyIndex(s, t, job.queue, job.id, None) && PcOf(t, w) == Idle
      case FailSet(job) => t.records == s.records[job.id := job] && t.zsets == s.zsets && PcOf(t, w) == FailIndex(job)
      case FailIndex(job) => OnlyIndex(s, t, job.queue, job.id, if job.status == Pending then Some(job.runAt) else None) && PcOf(t, w) == Idle
      case _ => true
  {
    hide OnlyIndex;
    var pc := PcOf(s, w);
    if pc.CompleteZrem? || pc.FailIndex? { IndexWritten(s, w, pc.job); }
  }
}
