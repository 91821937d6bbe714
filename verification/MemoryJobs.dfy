/** The in-memory job store: an insertion-ordered table of records, changed in place. */
module MemoryJobs {
  import opened OptionType
  import opened JobRecord
  import opened StableSort
  import opened Text

  /** A JavaScript Map: keys in the order of their first insertion. */
  datatype Table = Table(order: seq<JobId>, jobs: map<JobId, Job>)

  ghost predicate Valid(t: Table) {
    && Distinct(t.order)
    && (forall id :: id in t.order <==> id in t.jobs)
    && (forall id :: id in t.jobs ==> t.jobs[id].id == id)
  }

  function Save(t: Table, job: Job): Table {
    Table(if job.id in t.jobs then t.order else t.order + [job.id], t.jobs[job.id := job])
  }

  lemma SaveValid(t: Table, job: Job)
    requires Valid(t)
    ensures Valid(Save(t, job))
  {}

  predicate Due(job: Job, queue: QueueName, now: int) {
    job.queue == queue && job.status == Pending && job.runAt <= now
  }

  /** b.priority - a.priority <= 0 */
  predicate PriorityOrder(a: Job, b: Job) { b.priority <= a.priority }

  function Candidates(order: seq<JobId>, jobs: map<JobId, Job>, queue: QueueName, now: int): (r: seq<Job>)
    requires forall id :: id in order ==> id in jobs
    ensures forall j :: j in r ==> Due(j, queue, now)
  {
    if order == [] then []
    else
      var rest, id := Candidates(order[..|order| - 1], jobs, queue, now), order[|order| - 1];
      if Due(jobs[id], queue, now) then rest + [jobs[id]] else rest
  }

  /** The job to run next: due in this queue, of the highest priority, and the earliest inserted of those. */
  ghost predicate Picked(t: Table, queue: QueueName, now: int, k: nat)
    requires Valid(t)
  {
    && k < |t.order|
    && Due(t.jobs[t.order[k]], queue, now)
    && (forall i :: 0 <= i < |t.order| && Due(t.jobs[t.order[i]], queue, now) ==>
          t.jobs[t.order[i]].priority <= t.jobs[t.order[k]].priority)
    && (forall i :: 0 <= i < k && Due(t.jobs[t.order[i]], queue, now) ==>
          t.jobs[t.order[i]].priority < t.jobs[t.order[k]].priority)
  }

  ghost predicate NoneDue(t: Table, queue: QueueName, now: int)
    requires Valid(t)
  {
    forall i :: 0 <= i < |t.order| ==> !Due(t.jobs[t.order[i]], queue, now)
  }

  function Lock(job: Job, until: int): Job {
    job.(status := Running, lockExpiresAt := Some(until), lockedAt := Some(until))
  }

  function TakeNext(t: Table, queue: QueueName, now: int, lockMs: int): (r: (Table, Option<Job>))
    requires forall id :: id in t.order ==> id in t.jobs
  {
    var sorted := Sort(PriorityOrder, Candidates(t.order, t.jobs, queue, now));
    if sorted == [] then (t, None)
    else
      var job := Lock(sorted[0], now + lockMs);
      (Table(t.order, t.jobs[job.id := job]), Some(job))
  }

  function MarkCompleted(t: Table, id: JobId): Table {
    if id in t.jobs then Table(t.order, t.jobs[id := t.jobs[id].(status := Completed)]) else t
  }

  function MarkFailed(t: Table, id: JobId, error: string, retryAt: Option<int>): Table {
    if id in t.jobs then Table(t.order, t.jobs[id := FailedAttempt(t.jobs[id], error, retryAt)]) else t
  }

  predicate Purgeable(job: Job, now: int, olderThan: Option<int>) {
    (job.status.Completed? || job.status.Failed?) && (olderThan.None? || now - job.runAt >= olderThan.value)
  }

  function Kept(order: seq<JobId>, jobs: map<JobId, Job>, now: int, olderThan: Option<int>): (r: seq<JobId>)
    requires forall id :: id in order ==> id in jobs
    ensures forall id :: id in r <==> id in order && !Purgeable(jobs[id], now, olderThan)
  {
    if order == [] then []
    else
      var rest, id := Kept(order[..|order| - 1], jobs, now, olderThan), order[|order| - 1];
      if Purgeable(jobs[id], now, olderThan) then rest else rest + [id]
  }

  function Purged(t: Table, now: int, olderThan: Option<int>): Table
    requires forall id :: id in t.order ==> id in t.jobs
  {
    Table(Kept(t.order, t.jobs, now, olderThan),
          map id | id in t.jobs && !Purgeable(t.jobs[id], now, olderThan) :: t.jobs[id])
  }

  // ---- what is picked ----------------------------------------------------------------------------------

  lemma CandidatesNext(order: seq<JobId>, jobs: map<JobId, Job>, i: nat, queue: QueueName, now: int)
    requires i < |order| && forall id :: id in order ==> id in jobs
    ensures Candidates(order[..i + 1], jobs, queue, now) ==
      Candidates(order[..i], jobs, queue, now) + (if Due(jobs[order[i]], queue, now) then [jobs[order[i]]] else [])
  {
    assert order[..i + 1][..i] == order[..i];
  }

  lemma KeptNext(order: seq<JobId>, jobs: map<JobId, Job>, i: nat, now: int, olderThan: Option<int>)
    requires i < |order| && forall id :: id in order ==> id in jobs
    ensures Kept(order[..i + 1], jobs, now, olderThan) ==
      Kept(order[..i], jobs, now, olderThan) + (if Purgeable(jobs[order[i]], now, olderThan) then [] else [order[i]])
  {
    assert order[..i + 1][..i] == order[..i];
  }

  lemma PurgedValid(t: Table, now: int, olderThan: Option<int>)
    requires Valid(t)
    ensures Valid(Purged(t, now, olderThan))
    ensures Purged(t, now, olderThan).jobs == Without(t.jobs, t.order, now, olderThan)
  {
    KeptDistinct(t.order, t.jobs, now, olderThan);
  }

  lemma {:induction false} CandidatesAre(t: Table, n: nat, queue: QueueName, now: int) returns (at: seq<nat>)
    requires Valid(t) && n <= |t.order|
    ensures |at| == |Candidates(t.order[..n], t.jobs, queue, now)|
    ensures forall i :: 0 <= i < |at| ==>
      at[i] < n && Candidates(t.order[..n], t.jobs, queue, now)[i] == t.jobs[t.order[at[i]]]
    ensures forall i, j :: 0 <= i < j < |at| ==> at[i] < at[j]
    ensures forall k :: 0 <= k < n && Due(t.jobs[t.order[k]], queue, now) ==> k in at
    decreases n
  {
    if n == 0 {
      at := [];
    } else {
      at := CandidatesAre(t, n - 1, queue, now);
      assert t.order[..n][..n - 1] == t.order[..n - 1];
      if Due(t.jobs[t.order[n - 1]], queue, now) { at := at + [n - 1]; }
    }
  }

  /** The stable sort by falling priority puts the picked job first; with nothing due there is no first. */
  lemma TakenIsPicked(t: Table, queue: QueueName, now: int, lockMs: int)
    requires Valid(t)
    ensures var r := TakeNext(t, queue, now, lockMs);
      match r.1
      case None => r.0 == t && NoneDue(t, queue, now)
      case Some(job) => 
        exists k :: Picked(t, queue, now, k) && Locked(t, r.0, job, k, now + lockMs)
  {
    var at := CandidatesAre(t, |t.order|, queue, now);
    assert t.order[..|t.order|] == t.order;
    var c := Candidates(t.order, t.jobs, queue, now);
    hide Candidates;
    if c == [] {
      assert at == [];
    } else {
      var h := SortHead(PriorityOrder, c);
      assert Due(c[h], queue, now) by { assert c[h] in c; }
      EarliestOfBest(t, queue, now, at, c, h);
      hide *;
      FirstIsTaken(t, queue, now, lockMs, at[h], h);
    }
  }

  lemma FirstIsTaken(t: Table, queue: QueueName, now: int, lockMs: int, k: nat, h: nat)
    requires Valid(t) && (forall id :: id in t.order ==> id in t.jobs) && k < |t.order|
    requires var c := Candidates(t.order, t.jobs, queue, now);
      h < |c| && c[h] == t.jobs[t.order[k]] && Sort(PriorityOrder, c) != [] && Sort(PriorityOrder, c)[0] == c[h]
    ensures TakeNext(t, queue, now, lockMs).1.Some?
    ensures Locked(t, TakeNext(t, queue, now, lockMs).0, TakeNext(t, queue, now, lockMs).1.value, k, now + lockMs)
  {
    hide Sort, Candidates;
  }

  lemma EarliestOfBest(t: Table, queue: QueueName, now: int, at: seq<nat>, c: seq<Job>, h: nat)
    requires Valid(t) && |at| == |c| && h < |c| && Due(c[h], queue, now)
    requires forall i :: 0 <= i < |at| ==> at[i] < |t.order| && c[i] == t.jobs[t.order[at[i]]]
    requires forall i, j :: 0 <= i < j < |at| ==> at[i] < at[j]
    requires forall k :: 0 <= k < |t.order| && Due(t.jobs[t.order[k]], queue, now) ==> k in at
    requires forall i :: 0 <= i < |c| ==> PriorityOrder(c[h], c[i])
    requires forall i :: 0 <= i < h ==> !PriorityOrder(c[i], c[h])
    ensures Picked(t, queue, now, at[h])
  {
    forall i | 0 <= i < |t.order| && Due(t.jobs[t.order[i]], queue, now)
      ensures t.jobs[t.order[i]].priority <= t.jobs[t.order[at[h]]].priority
      ensures i < at[h] ==> t.jobs[t.order[i]].priority < t.jobs[t.order[at[h]]].priority
    {
      assert i in at;
      var m: nat :| m < |at| && at[m] == i;
      assert PriorityOrder(c[h], c[m]);
      if i < at[h] { assert m < h; }
    }
  }

  ghost predicate Locked(t: Table, after: Table, job: Job, k: nat, until: int)
    requires Valid(t) && k < |t.order|
  {
    job == Lock(t.jobs[t.order[k]], until) && after == Table(t.order, t.jobs[t.order[k] := job])
  }

  lemma TakenValid(t: Table, queue: QueueName, now: int, lockMs: int)
    requires Valid(t)
    ensures Valid(TakeNext(t, queue, now, lockMs).0)
  {
    TakenIsPicked(t, queue, now, lockMs);
  }

  lemma {:induction false} KeptDistinct(order: seq<JobId>, jobs: map<JobId, Job>, now: int, olderThan: Option<int>)
    requires forall id :: id in order ==> id in jobs
    requires Distinct(order)
    ensures Distinct(Kept(order, jobs, now, olderThan))
  {
    if order != [] {
      var before, last := order[..|order| - 1], order[|order| - 1];
      KeptDistinct(before, jobs, now, olderThan);
      var rest := Kept(before, jobs, now, olderThan);
      assert last !in before;
      assert forall i :: 0 <= i < |rest| ==> rest[i] in before;
    }
  }

  /** Earlier and later stay earlier and later among the jobs a purge keeps. */
  lemma {:induction false} KeptInOrder(order: seq<JobId>, jobs: map<JobId, Job>, now: int, olderThan: Option<int>, a: JobId, b: JobId)
    requires forall id :: id in order ==> id in jobs
    requires Precedes(order, a, b) && !Purgeable(jobs[a], now, olderThan) && !Purgeable(jobs[b], now, olderThan)
    ensures Precedes(Kept(order, jobs, now, olderThan), a, b)
  {
    var before, last := order[..|order| - 1], order[|order| - 1];
    var i, j :| 0 <= i < j < |order| && order[i] == a && order[j] == b;
    var kept := Kept(before, jobs, now, olderThan);
    if j < |before| {
      assert before[i] == a && before[j] == b;
      KeptInOrder(before, jobs, now, olderThan, a, b);
      var x, y :| 0 <= x < y < |kept| && kept[x] == a && kept[y] == b;
      assert Kept(order, jobs, now, olderThan)[x] == a && Kept(order, jobs, now, olderThan)[y] == b;
    } else {
      assert before[i] == a;
      assert a in kept;
      var x :| 0 <= x < |kept| && kept[x] == a;
      assert (kept + [b])[x] == a && (kept + [b])[|kept|] == b;
    }
  }

  ghost predicate Precedes(order: seq<JobId>, a: JobId, b: JobId) {
    exists i, j :: 0 <= i < j < |order| && order[i] == a && order[j] == b
  }

  /** What is left of the records once the ids before some point have been looked at. */
  ghost function Without(jobs: map<JobId, Job>, seen: seq<JobId>, now: int, olderThan: Option<int>): map<JobId, Job> {
    map id | id in jobs && !(id in seen && Purgeable(jobs[id], now, olderThan)) :: jobs[id]
  }

  lemma WithoutNext(jobs: map<JobId, Job>, order: seq<JobId>, i: nat, now: int, olderThan: Option<int>)
    requires i < |order| && order[i] in jobs
    ensures Without(jobs, order[..i + 1], now, olderThan) ==
      var left := Without(jobs, order[..i], now, olderThan);
      if Purgeable(jobs[order[i]], now, olderThan) then left - {order[i]} else left
  {
    assert forall id :: id in order[..i + 1] <==> id in order[..i] || id == order[i];
  }

  lemma WithoutKeeps(jobs: map<JobId, Job>, seen: seq<JobId>, id: JobId, now: int, olderThan: Option<int>)
    requires id in jobs && id !in seen
    ensures id in Without(jobs, seen, now, olderThan) && Without(jobs, seen, now, olderThan)[id] == jobs[id]
  {}

  lemma NotSeenBefore(t: Table, i: nat)
    requires Valid(t) && i < |t.order|
    ensures t.order[i] !in t.order[..i] && t.order[i] in t.jobs
    ensures forall id :: id in t.order ==> id in t.jobs
  {}

  lemma PurgeStart(jobs: map<JobId, Job>, order: seq<JobId>, now: int, olderThan: Option<int>)
    ensures order[..0] == [] && Without(jobs, [], now, olderThan) == jobs && Kept([], jobs, now, olderThan) == []
  {}

  /** What the purge loop has to do for one more key. */
  lemma PurgeNext(t: Table, i: nat, now: int, olderThan: Option<int>)
    requires Valid(t) && i < |t.order|
    ensures (forall id :: id in t.order ==> id in t.jobs) && t.order[i] in t.jobs
    ensures var id, left := t.order[i], Without(t.jobs, t.order[..i], now, olderThan);
      && id in left && left[id] == t.jobs[id]
      && Kept(t.order[..i + 1], t.jobs, now, olderThan) ==
           Kept(t.order[..i], t.jobs, now, olderThan) + (if Purgeable(t.jobs[id], now, olderThan) then [] else [id])
      && Without(t.jobs, t.order[..i + 1], now, olderThan) == if Purgeable(t.jobs[id], now, olderThan) then left - {id} else left
  {
    hide *;
    NotSeenBefore(t, i);
    KeptNext(t.order, t.jobs, i, now, olderThan);
    WithoutNext(t.jobs, t.order, i, now, olderThan);
    WithoutKeeps(t.jobs, t.order[..i], t.order[i], now, olderThan);
  }

  lemma PurgedIs(t: Table, now: int, olderThan: Option<int>)
    requires Valid(t)
    ensures (forall id :: id in t.order ==> id in t.jobs)
    ensures Purged(t, now, olderThan) == Table(Kept(t.order, t.jobs, now, olderThan), Without(t.jobs, t.order, now, olderThan))
  {
    PurgedValid(t, now, olderThan);
    hide Kept;
  }

  // ---- the storage object ----------------------------------------------------------------------------------

  class MemoryJobStorage {
    var order: seq<JobId>
    var jobs: map<JobId, Job>

    ghost function T(): Table
      reads this
    {
      Table(order, jobs)
    }

    constructor ()
      ensures T() == Table([], map[]) && Valid(T())
    {
      order, jobs := [], map[];
    }

    method DoSave(job: Job)
      requires Valid(T())
      modifies this
      ensures T() == Save(old(T()), job) && Valid(T())
    {
      if job.id !in jobs { order := order + [job.id]; }
      jobs := jobs[job.id := job];
      SaveValid(old(T()), job);
    }

    method AcquireNext(queue: QueueName, now: int, lockMs: int) returns (job: Option<Job>)
      requires Valid(T())
      modifies this
      ensures (T(), job) == TakeNext(old(T()), queue, now, lockMs) && Valid(T())
    {
      TakenValid(T(), queue, now, lockMs);
      hide Candidates, Sort, Valid;
      var candidates: seq<Job> := [];
      var i := 0;
      while i < |order|
        invariant 0 <= i <= |order| && T() == old(T())
        invariant candidates == Candidates(order[..i], jobs, queue, now)
      {
        var j := jobs[order[i]];
        CandidatesNext(order, jobs, i, queue, now);
        if j.queue == queue && j.status == Pending && j.runAt <= now { candidates := candidates + [j]; }
        i := i + 1;
      }
      assert order[..i] == order;
      var sorted := Sort(PriorityOrder, candidates);
      if sorted == [] { return None; }
      var locked := Lock(sorted[0], now + lockMs);
      jobs := jobs[locked.id := locked];
      return Some(locked);
    }

    method DoComplete(id: JobId)
      requires Valid(T())
      modifies this
      ensures T() == MarkCompleted(old(T()), id) && Valid(T())
    {
      if id in jobs { jobs := jobs[id := jobs[id].(status := Completed)]; }
    }

    method DoFail(id: JobId, error: string, retryAt: Option<int>)
      requires Valid(T())
      modifies this
      ensures T() == MarkFailed(old(T()), id, error, retryAt) && Valid(T())
    {
      if id !in jobs { return; }
      var job := jobs[id];
      job := job.(attempts := job.attempts + 1, error := Some(error));
      if job.attempts < job.maxAttempts && retryAt.Some? {
        job := job.(status := Pending, runAt := retryAt.value);
      } else {
        job := job.(status := Failed);
      }
      jobs := jobs[id := job];
    }

    method Purge(now: int, olderThan: Option<int>) returns (removed: nat)
      requires Valid(T())
      modifies this
      ensures T() == Purged(old(T()), now, olderThan) && Valid(T())
      ensures removed == |old(order)| - |order|
    {
      hide Kept, Without, Purged, Purgeable, Valid;
      PurgedValid(T(), now, olderThan);
      PurgedIs(T(), now, olderThan);
      var i := 0;
      var kept: seq<JobId> := [];
      removed := 0;
      ghost var before := jobs;
      PurgeStart(before, order, now, olderThan);
      while i < |order|
        invariant 0 <= i <= |order| && order == old(order)
        invariant forall id :: id in order ==> id in before
        invariant kept == Kept(order[..i], before, now, olderThan)
        invariant jobs == Without(before, order[..i], now, olderThan)
        invariant removed + |kept| == i
      {
        PurgeNext(old(T()), i, now, olderThan);
        var job := jobs[order[i]];
        if Purgeable(job, now, olderThan) {
          jobs := jobs - {order[i]};
          removed := removed + 1;
        } else {
          kept := kept + [order[i]];
        }
        i := i + 1;
      }
      assert order[..i] == order;
      order := kept;
    }
  }
}
