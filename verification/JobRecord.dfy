/** The job record shared by every storage adapter. */
module JobRecord {
  import opened OptionType

  type JobId = string
  type QueueName = string

  datatype Status = Pending | Running | Completed | Failed

  datatype Job = Job(
    id: JobId,
    queue: QueueName,
    status: Status,
    priority: int,
    runAt: int,
    attempts: nat,
    maxAttempts: int,
    error: Option<string>,
    lockedAt: Option<int>,
    lockExpiresAt: Option<int>)

  /** What `fail` writes: one more attempt, then a retry or the final failure. */
  function FailedAttempt(job: Job, error: string, retryAt: Option<int>): (r: Job)
    ensures r.id == job.id && r.queue == job.queue && r.attempts == job.attempts + 1
    ensures r.status == Pending <==> retryAt.Some? && r.attempts < job.maxAttempts
    ensures r.status == Pending || r.status == Failed
    ensures r.error == Some(error) && r.runAt == (if r.status == Pending then retryAt.value else job.runAt)
    ensures r.priority == job.priority && r.maxAttempts == job.maxAttempts
    ensures r.lockedAt == job.lockedAt && r.lockExpiresAt == job.lockExpiresAt
  {
    var j := job.(attempts := job.attempts + 1, error := Some(error));
    if j.attempts < j.maxAttempts && retryAt.Some?
    then j.(status := Pending, runAt := retryAt.value)
    else j.(status := Failed)
  }
}
