/** Sagas: forward steps, and on a failure one compensation job per completed step, last step first. */
module Saga {
  import opened JobRecord
  import opened JobRuns
  import opened JobTheorems
  import opened MemoryJobs

  type Context = map<string, string>

  /** What running one step came to. */
  datatype Outcome = Done(result: string) | Threw(error: string)

  datatype Request = Request(name: string, context: Context, result: string)

  datatype Report = Succeeded(context: Context) | RolledBack(context: Context, error: string)

  function CompensationName(step: string): string { "compensate:" + step }

  /** The first step that throws, or the number of steps. */
  function FailsAt(outcomes: seq<Outcome>): (k: nat)
    ensures k <= |outcomes|
    ensures forall i :: 0 <= i < k ==> outcomes[i].Done?
    ensures k < |outcomes| ==> outcomes[k].Threw?
  {
    if outcomes == [] || outcomes[0].Threw? then 0 else 1 + FailsAt(outcomes[1..])
  }

  /** The shared context once the first `k` steps have stored their results under their names. */
  function ContextAfter(initial: Context, steps: seq<string>, outcomes: seq<Outcome>, k: nat): Context
    requires k <= |steps| == |outcomes| && forall i :: 0 <= i < k ==> outcomes[i].Done?
  {
    if k == 0 then initial
    else ContextAfter(initial, steps, outcomes, k - 1)[steps[k - 1] := outcomes[k - 1].result]
  }

  /** The last of the first `k` steps with this name. */
  predicate LastNamed(steps: seq<string>, name: string, k: nat, i: nat) {
    i < k <= |steps| && steps[i] == name && forall j :: i < j < k ==> steps[j] != name
  }

  /** Under the name of a completed step stands the result of its last occurrence; every other name is as it was. */
  lemma {:induction false} ContextMeans(initial: Context, steps: seq<string>, outcomes: seq<Outcome>, k: nat, name: string)
    requires k <= |steps| == |outcomes| && forall i :: 0 <= i < k ==> outcomes[i].Done?
    ensures var context := ContextAfter(initial, steps, outcomes, k);
      && (forall i: nat :: LastNamed(steps, name, k, i) ==> name in context && context[name] == outcomes[i].result)
      && (name !in steps[..k] ==> (name in context <==> name in initial) && (name in initial ==> context[name] == initial[name]))
  {
    if k > 0 {
      ContextMeans(initial, steps, outcomes, k - 1, name);
      assert steps[..k] == steps[..k - 1] + [steps[k - 1]];
      forall i: nat | LastNamed(steps, name, k, i)
        ensures if steps[k - 1] == name then i == k - 1 else LastNamed(steps, name, k - 1, i)
      {}
    }
  }

  /** Steps k-1 down to 0, each with its own result and the context at the failure. */
  function Rollback(steps: seq<string>, outcomes: seq<Outcome>, context: Context, k: nat): (r: seq<Request>)
    requires k <= |steps| == |outcomes| && forall i :: 0 <= i < k ==> outcomes[i].Done?
    ensures |r| == k
    ensures forall j :: 0 <= j < k ==>
      r[j] == Request(CompensationName(steps[k - 1 - j]), context, outcomes[k - 1 - j].result)
  {
    if k == 0 then []
    else [Request(CompensationName(steps[k - 1]), context, outcomes[k - 1].result)] + Rollback(steps, outcomes, context, k - 1)
  }

  /** The requests whose enqueue did not throw; a throwing one is skipped. */
  function Accepted(requests: seq<Request>, accepts: seq<bool>): seq<Request>
    requires |requests| <= |accepts|
  {
    if requests == [] then []
    else
      (if accepts[0] then [requests[0]] else []) + Accepted(requests[1..], accepts[1..])
  }

  lemma {:induction false} AllAccepted(requests: seq<Request>, accepts: seq<bool>)
    requires |requests| <= |accepts| && forall i :: 0 <= i < |requests| ==> accepts[i]
    ensures Accepted(requests, accepts) == requests
  {
    if requests != [] { AllAccepted(requests[1..], accepts[1..]); }
  }

  class SagaCoordinator {
    var steps: seq<string>
    var handlers: set<string>

    constructor ()
      ensures steps == [] && handlers == {}
    {
      steps, handlers := [], {};
    }

    /** Every compensation that can be enqueued has a handler. */
    ghost predicate Registered()
      reads this
    {
      forall i :: 0 <= i < |steps| ==> CompensationName(steps[i]) in handlers
    }

    method AddStep(name: string)
      requires Registered()
      modifies this
      ensures steps == old(steps) + [name] && Registered() && old(handlers) <= handlers
    {
      steps := steps + [name];
      handlers := handlers + {CompensationName(name)};
    }

    /** The compensation loop, last completed step first. */
    method RollBack(executed: seq<(string, string)>, context: Context, outcomes: seq<Outcome>, accepts: seq<bool>)
      returns (enqueued: seq<Request>)
      requires Registered() && |executed| <= |steps| == |outcomes| <= |accepts|
      requires forall i :: 0 <= i < |executed| ==> outcomes[i].Done? && executed[i] == (steps[i], outcomes[i].result)
      ensures enqueued == Accepted(Rollback(steps, outcomes, context, |executed|), accepts)
      ensures (forall i :: 0 <= i < |executed| ==> accepts[i]) ==> enqueued == Rollback(steps, outcomes, context, |executed|)
      ensures forall i :: 0 <= i < |enqueued| ==> enqueued[i].name in handlers
    {
      enqueued := [];
      var s := |executed|;
      ghost var whole := Rollback(steps, outcomes, context, s);
      var i := s;
      while i > 0
        invariant 0 <= i <= s
        invariant Accepted(whole, accepts) == enqueued + Accepted(whole[s - i..], accepts[s - i..])
        invariant forall j :: 0 <= j < |enqueued| ==> enqueued[j].name in handlers
      {
        i := i - 1;
        var request := Request(CompensationName(executed[i].0), context, executed[i].1);
        assert whole[s - i - 1] == request;
        assert whole[s - i - 1..][1..] == whole[s - i..] && accepts[s - i - 1..][1..] == accepts[s - i..];
        if accepts[s - i - 1] { enqueued := enqueued + [request]; }
      }
      if forall j :: 0 <= j < s ==> accepts[j] { AllAccepted(whole, accepts); }
    }

    /**
      `outcomes` are the steps' results, `accepts` says which enqueues succeed; `enqueued` is what
      reached the storage, in order.
     */
    method Execute(initial: Context, outcomes: seq<Outcome>, accepts: seq<bool>)
      returns (report: Report, enqueued: seq<Request>)
      requires Registered() && |outcomes| == |steps| <= |accepts|
      ensures var k := FailsAt(outcomes);
        var context := ContextAfter(initial, steps, outcomes, k);
        if k == |steps| then report == Succeeded(context) && enqueued == []
        else
          && report == RolledBack(context, outcomes[k].error)
          && enqueued == Accepted(Rollback(steps, outcomes, context, k), accepts)
          && ((forall i :: 0 <= i < k ==> accepts[i]) ==> enqueued == Rollback(steps, outcomes, context, k))
      ensures forall i :: 0 <= i < |enqueued| ==> enqueued[i].name in handlers
    {
      var context := initial;
      var executed: seq<(string, string)> := [];
      enqueued := [];
      var s := 0;
      hide Rollback, Accepted;
      while s < |steps|
        invariant 0 <= s <= |steps| && s <= FailsAt(outcomes) && |executed| == s && enqueued == []
        invariant forall i :: 0 <= i < s ==> executed[i] == (steps[i], outcomes[i].result)
        invariant context == ContextAfter(initial, steps, outcomes, s)
        decreases |steps| - s
      {
        if outcomes[s].Threw? {
          assert FailsAt(outcomes) == s;
          enqueued := RollBack(executed, context, outcomes, accepts);
          return RolledBack(context, outcomes[s].error), enqueued;
        }
        executed := executed + [(steps[s], outcomes[s].result)];
        context := context[steps[s] := outcomes[s].result];
        s := s + 1;
      }
      return Succeeded(context), enqueued;
    }
  }

  /** The run enqueues the rollback of a saga that failed at step `k`: at the listed positions, in that order. */
  ghost predicate EnqueuesRollback(events: seq<Event>, at: seq<nat>, queue: QueueName, requests: seq<Request>) {
    && |at| == |requests|
    && (forall j, l :: 0 <= j < l < |at| ==> at[j] < at[l])
    && forall j :: 0 <= j < |at| ==>
         at[j] < |events| && events[at[j]].Enqueue? && events[at[j]].name == requests[j].name
         && events[at[j]].queue == queue && events[at[j]].priority == 0 && events[at[j]].delayMs == 0
  }

  /**
    For a saga that failed at step `k`: whatever else the run does, the compensation of an earlier
    step is not acquired for the first time before that of a later step was.
   */
  lemma CompensationsStartInReverse(states: seq<World>, events: seq<Event>, i: nat, at: seq<nat>, queue: QueueName,
                                    steps: seq<string>, outcomes: seq<Outcome>, context: Context, k: nat,
                                    earlier: nat, later: nat)
    requires Run(states, events) && i <= |events| && earlier < later < k <= |steps| == |outcomes|
    requires forall j :: 0 <= j < k ==> outcomes[j].Done?
    requires EnqueuesRollback(events, at, queue, Rollback(steps, outcomes, context, k))
    ensures var e, l := events[at[k - 1 - earlier]], events[at[k - 1 - later]];
      && e.name == CompensationName(steps[earlier]) && l.name == CompensationName(steps[later])
      && e.id != l.id
      && (e.id in states[i].taken ==> l.id in states[i].taken)
  {
    var p, q := at[k - 1 - later], at[k - 1 - earlier];
    assert p < q;
    DifferentIds(states, events, p, q);
    if i <= p {
      NotYetEnqueued(states, events, i, q, events[q].id);
      InvRun(states, events, i);
    } else {
      FirstAcquiredInOrder(states, events, p, q, i);
    }
  }
}
