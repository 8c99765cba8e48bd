/** A lane that runs the tasks submitted to it one at a time, in submission
    order (src/shared/AsyncQueue.ts).

    The promise chain is modelled as a sequential state machine. Submitting
    appends a task to the chain; the task at the head of the chain is the one
    running, and the event "the running task settled with this outcome"
    removes it from the chain. Each submission is identified by a ticket, its
    position in submission order. */
module AsyncQueue {
  import opened Js

  /** A submission: the number of submissions made to the lane before it. */
  type Ticket = nat

  /** What a task settles with; its value is opaque to the lane. */
  type Outcome = Settled<string>

  class AsyncQueue {
    /** `#activeTasks`. */
    var activeTasks: int
    /** The tasks chained onto `#promise` that have not settled yet, oldest
        first; the first of them is the one running. */
    var chain: seq<Ticket>
    /** How many tasks have been submitted. */
    var submitted: nat
    /** The outcome each settled submission's caller received. */
    var results: map<Ticket, Outcome>

    /** The counter counts exactly the submissions that have not settled, the
        unsettled ones are the latest, in order, and every earlier one has a
        result. */
    ghost predicate Valid()
      reads this
    {
      && activeTasks == |chain|
      && |chain| <= submitted
      && (forall i :: 0 <= i < |chain| ==> chain[i] == submitted - |chain| + i)
      && (forall t: Ticket :: t in results <==> t < submitted - |chain|)
    }

    /** The submission whose task is running, if any. */
    function Running(): (r: Option<Ticket>)
      reads this
      requires Valid()
      ensures r.Some? <==> activeTasks > 0
      ensures r.Some? ==> r.value !in results && forall t: Ticket :: t < r.value ==> t in results
    {
      if chain == [] then None else Some(chain[0])
    }

    constructor ()
      ensures Valid()
      ensures activeTasks == 0 && chain == [] && submitted == 0 && results == map[]
    {
      activeTasks := 0;
      chain := [];
      submitted := 0;
      results := map[];
    }

    method IncrementActiveTasks()
      modifies this`activeTasks
      ensures activeTasks == old(activeTasks) + 1
    {
      activeTasks := activeTasks + 1;
    }

    /** `Math.max(0, activeTasks - 1)`. */
    method DecrementActiveTasks()
      modifies this`activeTasks
      ensures activeTasks == if old(activeTasks) >= 1 then old(activeTasks) - 1 else 0
    {
      activeTasks := if 0 < activeTasks - 1 then activeTasks - 1 else 0;
    }

    /** `submitAndGetResult(task)`: counts the task as active before chaining
        it behind everything already submitted. The returned ticket names the
        result its caller will receive. */
    method SubmitAndGetResult() returns (ticket: Ticket)
      requires Valid()
      modifies this
      ensures Valid()
      ensures ticket == old(submitted) && ticket !in results
      ensures activeTasks == old(activeTasks) + 1
      ensures chain == old(chain) + [ticket]
      ensures submitted == old(submitted) + 1 && results == old(results)
    {
      ticket := submitted;
      IncrementActiveTasks();
      chain := chain + [ticket];
      submitted := submitted + 1;
    }

    /** The running task settles with `outcome`, fulfilled or rejected alike:
        its caller receives exactly that outcome, the counter drops by one,
        and the next task in the chain becomes the running one (the stored
        chain swallows a rejection, so it does not block later tasks). With
        nothing submitted there is nothing to settle. */
    method Settle(outcome: Outcome) returns (settled: Option<Ticket>)
      requires Valid()
      modifies this
      ensures Valid()
      ensures old(chain) == [] ==> settled == None && unchanged(this)
      ensures old(chain) != [] ==>
        && settled == Some(old(chain)[0])
        && (forall t: Ticket :: t < settled.value ==> t in old(results))
        && chain == old(chain)[1..]
        && activeTasks == old(activeTasks) - 1
        && results == old(results)[settled.value := outcome]
        && submitted == old(submitted)
    {
      if chain == [] {
        return None;
      }
      var ticket := chain[0];
      chain := chain[1..];
      DecrementActiveTasks();
      results := results[ticket := outcome];
      settled := Some(ticket);
    }
  }

  /** The tickets handed out before the `k`-th submission. */
  function TicketsBelow(k: nat): (r: set<Ticket>)
    ensures forall t: Ticket :: t in r <==> t < k
    ensures |r| == k
  {
    if k == 0 then {} else TicketsBelow(k - 1) + {k - 1}
  }

  /** The lane's counter is the number of submitted tasks that have not
      settled: submissions minus results handed out. */
  lemma ActiveTasksCountsUnsettled(q: AsyncQueue)
    requires q.Valid()
    ensures q.activeTasks == q.submitted - |q.results|
  {
    assert q.results.Keys == TicketsBelow(q.submitted - |q.chain|);
  }
}
