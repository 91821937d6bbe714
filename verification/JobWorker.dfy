/** What a scheduler's worker does with an acquired job, against the in-memory store. */
module JobWorker {
  import opened OptionType
  import opened JobRecord
  import opened MemoryJobs
  import opened JobRuns

  /** Exhausted attempts end in the dead-letter queue or in a final failure; otherwise a retry. */
  method HandleJobFailure(storage: MemoryJobStorage, h: Holding, error: string, now: int)
    requires Valid(storage.T())
    modifies storage
    ensures storage.T() == AfterFailure(old(storage.T()), h, error, now) && Valid(storage.T())
  {
    var nextAttempt := h.job.attempts + 1;
    if nextAttempt >= h.job.maxAttempts {
      if h.config.dlqQueue.Some? {
        var dlqJob := h.job.(attempts := nextAttempt, status := Failed, error := Some(error),
                             queue := h.config.dlqQueue.value, lockedAt := None, lockExpiresAt := None);
        storage.DoSave(dlqJob);
      } else {
        storage.DoFail(h.job.id, error, None);
      }
    } else {
      storage.DoFail(h.job.id, error, Some(now + h.config.retryMs));
    }
  }

  /** `failure` is what the handler threw, or that it timed out; a job without a handler never starts one. */
  method ExecuteJob(storage: MemoryJobStorage, h: Holding, hasHandler: bool, failure: Option<string>, now: int)
    returns (started: bool)
    requires Valid(storage.T())
    modifies storage
    ensures started == hasHandler && Valid(storage.T())
    ensures storage.T() ==
      if !hasHandler then AfterFailure(old(storage.T()), h, "No handler registered", now)
      else if failure.Some? then AfterFailure(old(storage.T()), h, failure.value, now)
      else MarkCompleted(old(storage.T()), h.job.id)
  {
    if !hasHandler {
      HandleJobFailure(storage, h, "No handler registered", now);
      return false;
    }
    if failure.Some? { HandleJobFailure(storage, h, failure.value, now); }
    else { storage.DoComplete(h.job.id); }
    return true;
  }
}
