/** What the counts kept about a job are counts of, and what whole runs say about handler starts and failures. */
module JobCounts {
  import opened JobRecord
  import opened MemoryJobs
  import opened JobRuns
  import opened JobTheorems

  /** Event `k` starts the handler for this job. */
  predicate StartsAt(states: seq<World>, events: seq<Event>, k: nat, id: JobId) {
    && k < |events| && k < |states| && events[k].Begin?
    && events[k].worker in states[k].held && states[k].held[events[k].worker].job.id == id
  }

  /** Event `k` is a failed attempt of this job. */
  predicate FailsAt(states: seq<World>, events: seq<Event>, k: nat, id: JobId) {
    && k < |events| && k < |states| && events[k].Fail?
    && events[k].worker in states[k].held && states[k].held[events[k].worker].job.id == id
  }

  /** Event `k` hands this job to a worker that held none. */
  predicate HandedOutAt(states: seq<World>, events: seq<Event>, k: nat, id: JobId) {
    && k < |events| && k + 1 < |states| && events[k].Acquire? && events[k].worker !in states[k].held
    && events[k].worker in states[k + 1].held && states[k + 1].held[events[k].worker].job.id == id
  }

  function Starts(states: seq<World>, events: seq<Event>, i: nat, id: JobId): set<nat> {
    set k | 0 <= k < i && StartsAt(states, events, k, id)
  }

  function Failures(states: seq<World>, events: seq<Event>, i: nat, id: JobId): set<nat> {
    set k | 0 <= k < i && FailsAt(states, events, k, id)
  }

  lemma StartsMore(states: seq<World>, events: seq<Event>, i: nat, id: JobId)
    ensures |Starts(states, events, i + 1, id)| == |Starts(states, events, i, id)| + if StartsAt(states, events, i, id) then 1 else 0
  {
    var one: set<nat> := if StartsAt(states, events, i, id) then {i} else {};
    assert Starts(states, events, i + 1, id) == Starts(states, events, i, id) + one;
  }

  lemma FailuresMore(states: seq<World>, events: seq<Event>, i: nat, id: JobId)
    ensures |Failures(states, events, i + 1, id)| == |Failures(states, events, i, id)| + if FailsAt(states, events, i, id) then 1 else 0
  {
    var one: set<nat> := if FailsAt(states, events, i, id) then {i} else {};
    assert Failures(states, events, i + 1, id) == Failures(states, events, i, id) + one;
  }

  /** One event counts for one job at most. */
  lemma CountsStep(w: World, e: Event, id: JobId)
    requires Valid(w.table) && Enabled(w, e)
    ensures var v := Next(w, e);
      && Count(v.starts, id) == Count(w.starts, id) + (if e.Begin? && w.held[e.worker].job.id == id then 1 else 0)
      && Count(v.failures, id) == Count(w.failures, id) + (if e.Fail? && w.held[e.worker].job.id == id then 1 else 0)
      && (id in v.taken <==> id in w.taken || (e.Acquire? && e.worker in v.held && v.held[e.worker].job.id == id))
      && v.now == if e.Clock? then e.to else w.now
  {
    hide TakeNext, AfterFailure, MarkCompleted, Purged, Save, NewJob;
  }

  /** In every run the counts are those of the events before. */
  lemma {:induction false} CountsAreTrue(states: seq<World>, events: seq<Event>, i: nat, id: JobId)
    requires Run(states, events) && i <= |events|
    ensures Count(states[i].starts, id) == |Starts(states, events, i, id)|
    ensures Count(states[i].failures, id) == |Failures(states, events, i, id)|
    ensures id in states[i].taken <==> exists k: nat :: k < i && HandedOutAt(states, events, k, id)
    decreases i
  {
    if i > 0 {
      var n := i - 1;
      CountsAreTrue(states, events, n, id);
      RunStep(states, events, n);
      CountsStep(states[n], events[n], id);
      StartsMore(states, events, n, id);
      FailuresMore(states, events, n, id);
      hide Next, Run, Starts, Failures;
      assert HandedOutAt(states, events, n, id) ==> n < i;
    }
  }

  /**
    In every run: a job's handler is started at most max(1, maxAttempts) times, the attempts in its record
    are its failures, and it is failed exactly when those have reached that number.
   */
  lemma HandlersStartAtMost(states: seq<World>, events: seq<Event>, i: nat, id: JobId)
    requires Run(states, events) && i <= |events| && id in states[i].original
    ensures var limit := if states[i].original[id].maxAttempts > 1 then states[i].original[id].maxAttempts else 1;
      && |Starts(states, events, i, id)| <= limit
      && (id in states[i].table.jobs ==>
            var job := states[i].table.jobs[id];
            job.attempts == |Failures(states, events, i, id)| && (job.status == Failed <==> |Failures(states, events, i, id)| == limit))
  {
    HandlerStartsAreBounded(states, events, i, id);
    CountsAreTrue(states, events, i, id);
    hide Run, Starts, Failures;
  }
}
