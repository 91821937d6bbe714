/** What the in-memory job store does to its records, said of their fields. */
module JobStoreMeaning {
  import opened OptionType
  import opened JobRecord
  import opened MemoryJobs
  import opened Text

  /** Pending in this queue, and its time has come. */
  predicate Ready(job: Job, queue: QueueName, now: int) {
    job.queue == queue && job.status.Pending? && job.runAt <= now
  }

  predicate Finished(job: Job) { job.status.Completed? || job.status.Failed? }

  /** Ready, with no ready job of higher priority, and none of the same priority inserted before it. */
  ghost predicate Best(t: Table, queue: QueueName, now: int, k: nat)
    requires Valid(t)
  {
    && k < |t.order| && Ready(t.jobs[t.order[k]], queue, now)
    && forall i :: 0 <= i < |t.order| && Ready(t.jobs[t.order[i]], queue, now) ==>
         var p := t.jobs[t.order[i]].priority; p < t.jobs[t.order[k]].priority || (p == t.jobs[t.order[k]].priority && k <= i)
  }

  /** One record is the new one, all others and their order are as before. */
  ghost predicate OnlyChanged(t: Table, after: Table, id: JobId, job: Job) {
    && after.order == t.order && after.jobs.Keys == t.jobs.Keys && id in t.jobs
    && forall x :: x in t.jobs ==> after.jobs[x] == if x == id then job else t.jobs[x]
  }

  /** The record of this id, now running and locked, nothing else about it or the others changed. */
  ghost predicate HandsOut(t: Table, after: Table, id: JobId, job: Job, until: int) {
    && OnlyChanged(t, after, id, job)
    && job.status.Running? && job.lockExpiresAt == Some(until) && job.lockedAt == Some(until)
    && job.id == t.jobs[id].id && job.queue == t.jobs[id].queue && job.priority == t.jobs[id].priority && job.runAt == t.jobs[id].runAt
    && job.attempts == t.jobs[id].attempts && job.maxAttempts == t.jobs[id].maxAttempts && job.error == t.jobs[id].error
  }

  /** The best ready job is handed out, running and locked for the given time; without one nothing happens. */
  lemma AcquireMeans(t: Table, queue: QueueName, now: int, lockMs: int)
    requires Valid(t)
    ensures var (after, taken) := TakeNext(t, queue, now, lockMs);
      if forall k :: 0 <= k < |t.order| ==> !Ready(t.jobs[t.order[k]], queue, now) then after == t && taken == None
      else taken.Some? && exists k: nat :: Best(t, queue, now, k) && HandsOut(t, after, t.order[k], taken.value, now + lockMs)
  {
    hide TakeNext, Due, Ready, Best, HandsOut, Locked;
    TakenIsPicked(t, queue, now, lockMs);
    var (after, taken) := TakeNext(t, queue, now, lockMs);
    if taken.Some? {
      var k: nat :| Picked(t, queue, now, k) && Locked(t, after, taken.value, k, now + lockMs);
      BestIsPicked(t, queue, now, k);
      LockedHandsOut(t, after, taken.value, k, now + lockMs);
      BestIsReady(t, queue, now, k);
    } else {
      NoneIsReady(t, queue, now);
    }
  }

  lemma LockedHandsOut(t: Table, after: Table, job: Job, k: nat, until: int)
    requires Valid(t) && k < |t.order| && Locked(t, after, job, k, until)
    ensures HandsOut(t, after, t.order[k], job, until)
  {
    assert t.order[k] in t.order;
  }

  lemma BestIsReady(t: Table, queue: QueueName, now: int, k: nat)
    requires Valid(t) && Best(t, queue, now, k)
    ensures Valid(t) && k < |t.order| && t.order[k] in t.jobs && Ready(t.jobs[t.order[k]], queue, now)
  {}

  lemma NoneIsReady(t: Table, queue: QueueName, now: int)
    requires Valid(t) && NoneDue(t, queue, now)
    ensures forall k :: 0 <= k < |t.order| ==> t.order[k] in t.jobs && !Ready(t.jobs[t.order[k]], queue, now)
  {}

  lemma BestIsPicked(t: Table, queue: QueueName, now: int, k: nat)
    requires Valid(t) && Picked(t, queue, now, k)
    ensures Best(t, queue, now, k)
  {
    forall i | 0 <= i < |t.order| ensures Ready(t.jobs[t.order[i]], queue, now) <==> Due(t.jobs[t.order[i]], queue, now) {}
    hide Ready, Due;
  }

  /** A new id goes to the end, a known one keeps its place. */
  lemma SaveMeans(t: Table, job: Job)
    requires Valid(t)
    ensures var after := Save(t, job);
      && (job.id in t.order ==> OnlyChanged(t, after, job.id, job))
      && (job.id !in t.order ==> after.order == t.order + [job.id] && after.jobs == t.jobs[job.id := job])
  {}

  lemma CompleteMeans(t: Table, id: JobId)
    requires Valid(t)
    ensures if id in t.order then OnlyChanged(t, MarkCompleted(t, id), id, t.jobs[id].(status := Completed)) else MarkCompleted(t, id) == t
  {}

  /** A failed attempt: pending again from the given time if a retry was asked for and attempts remain, failed otherwise. */
  lemma FailMeans(t: Table, id: JobId, error: string, retryAt: Option<int>)
    requires Valid(t)
    ensures if id !in t.order then MarkFailed(t, id, error, retryAt) == t
      else
        var job := t.jobs[id];
        var again := job.attempts + 1 < job.maxAttempts && retryAt.Some?;
        OnlyChanged(t, MarkFailed(t, id, error, retryAt), id,
          job.(attempts := job.attempts + 1, error := Some(error),
               status := if again then Pending else Failed, runAt := if again then retryAt.value else job.runAt))
  {}

  /**
    A purge removes exactly the finished jobs whose time lies at least that long back, all finished
    ones without a limit. What it keeps is unchanged and in the same order.
   */
  lemma PurgeMeans(t: Table, now: int, olderThan: Option<int>, a: JobId, b: JobId)
    requires Valid(t)
    requires forall id :: id in t.order ==> id in t.jobs
    ensures var after := Purged(t, now, olderThan);
      && (a in after.order <==> a in after.jobs)
      && (a in after.jobs <==> a in t.order && !(Finished(t.jobs[a]) && (olderThan.None? || t.jobs[a].runAt + olderThan.value <= now)))
      && (a in after.jobs ==> after.jobs[a] == t.jobs[a])
      && (a in after.jobs && b in after.jobs && Precedes(t.order, a, b) ==> Precedes(after.order, a, b))
  {
    PurgedValid(t, now, olderThan);
    if Precedes(t.order, a, b) && !Purgeable(t.jobs[a], now, olderThan) && !Purgeable(t.jobs[b], now, olderThan) {
      KeptInOrder(t.order, t.jobs, now, olderThan, a, b);
    }
    hide Kept, Precedes;
  }
}
