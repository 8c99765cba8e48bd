/** A fixed set of lanes; each task goes to the least busy one
    (src/services/WorkerPool.ts). */
module WorkerPool {
  import opened Js
  import opened AsyncQueue
  import opened PubSub
  import opened PanicBus
  import WorkerConfiguration

  /** What the pool publishes when it has no lane to give a task to. */
  const NoWorkersMessage: PanicBusMessage :=
    PanicBusMessage("WorkerPool", "No workers available to submit a task")

  /** How many times `for (let i = 0; i < workers; ++i)` runs. */
  function LaneCount(workers: JsNumber): (n: nat)
    ensures workers.Num? && workers.n > 0 ==> n == workers.n
    ensures workers.NaN? || workers.n <= 0 ==> n == 0
  {
    if workers.Num? && workers.n > 0 then workers.n else 0
  }

  /** `k` is the position of the first minimum of `counts`. */
  predicate IsFirstMinimum(counts: seq<int>, k: int)
  {
    && 0 <= k < |counts|
    && (forall j :: 0 <= j < |counts| ==> counts[k] <= counts[j])
    && (forall j :: 0 <= j < k ==> counts[j] > counts[k])
  }

  /** Ties go to the lowest index: `[2, 0, 1]` picks 1, `[0, 0]` picks 0. */
  lemma FirstMinimumExamples()
    ensures IsFirstMinimum([2, 0, 1], 1)
    ensures IsFirstMinimum([0, 0], 0) && !IsFirstMinimum([0, 0], 1)
  {
  }

  function ActiveCounts(lanes: seq<AsyncQueue>): (counts: seq<int>)
    reads lanes
    ensures |counts| == |lanes|
    ensures forall i :: 0 <= i < |lanes| ==> counts[i] == lanes[i].activeTasks
  {
    if lanes == [] then [] else [lanes[0].activeTasks] + ActiveCounts(lanes[1..])
  }

  /** A `WORKERS` value that `parseInt` cannot read leaves the pool without
      lanes, so every submission panics. */
  lemma MalformedWorkersLeavesNoLanes(workersStr: string, parseInt: string -> Option<int>)
    requires workersStr != [] && parseInt(workersStr) == None
    ensures LaneCount(WorkerConfiguration.Workers(Some(workersStr), parseInt)) == 0
  {
    WorkerConfiguration.MalformedWorkersIsNaN(workersStr, parseInt);
  }

  class WorkerPool {
    /** The lanes, fixed at construction. */
    const workers: seq<AsyncQueue>
    const panicBus: PanicBus

    ghost predicate Valid()
      reads this, workers, panicBus, panicBus.pubSub
    {
      && panicBus.Valid()
      && (forall i, j :: 0 <= i < j < |workers| ==> workers[i] != workers[j])
      && (forall i :: 0 <= i < |workers| ==> workers[i].Valid())
    }

    /** Builds one idle lane per iteration of `i < workers`: exactly `workers`
        lanes for a positive count, none for zero, a negative count or NaN. */
    constructor (workerCount: JsNumber, panicBus: PanicBus)
      requires panicBus.Valid()
      ensures Valid()
      ensures |workers| == LaneCount(workerCount) && this.panicBus == panicBus
      ensures forall i :: 0 <= i < |workers| ==>
        fresh(workers[i]) && workers[i].activeTasks == 0 && workers[i].submitted == 0
    {
      var lanes: seq<AsyncQueue> := [];
      var i := 0;
      while LessThan(i, workerCount)
        invariant 0 <= i <= LaneCount(workerCount) && |lanes| == i
        invariant forall k :: 0 <= k < i ==>
          fresh(lanes[k]) && lanes[k].Valid() && lanes[k].activeTasks == 0 && lanes[k].submitted == 0
        invariant forall k, l :: 0 <= k < l < i ==> lanes[k] != lanes[l]
        decreases LaneCount(workerCount) - i
      {
        var lane := new AsyncQueue();
        lanes := lanes + [lane];
        i := i + 1;
      }
      workers := lanes;
      this.panicBus := panicBus;
    }

    /** `getLessBusyWorker()`: the first lane with the fewest active tasks.
        With no lanes it publishes the "no workers" message on the panic bus
        and throws, which is `None` here. */
    method GetLessBusyWorker(throwing: set<Callback>)
      returns (lane: Option<nat>, panic: seq<Call<PanicBusMessage>>)
      requires Valid()
      ensures lane.Some? ==> IsFirstMinimum(ActiveCounts(workers), lane.value) && panic == []
      ensures lane.None? <==> workers == []
      ensures lane.None? ==>
        && |panic| == |panicBus.pubSub.subscribers|
        && forall i :: 0 <= i < |panic| ==>
          panic[i] == Call(panicBus.pubSub.subscribers[i], NoWorkersMessage,
                           panicBus.pubSub.subscribers[i] in throwing)
    {
      ghost var counts := ActiveCounts(workers);
      var lessBusy: Option<nat> := None;
      for i := 0 to |workers|
        invariant lessBusy.None? <==> i == 0
        invariant lessBusy.Some? ==> IsFirstMinimum(counts[..i], lessBusy.value)
      {
        if lessBusy.None? || workers[i].activeTasks < workers[lessBusy.value].activeTasks {
          lessBusy := Some(i);
        }
      }
      assert counts[..|workers|] == counts;
      if lessBusy.None? {
        panic := panicBus.Publish(NoWorkersMessage, throwing);
        lane := None;
      } else {
        panic := [];
        lane := lessBusy;
      }
    }

    /** `submitTaskAndGetResult(task)`: the task joins the chain of the least
        busy lane; only that lane changes. With no lanes nothing is submitted
        and the panic is published. */
    method SubmitTaskAndGetResult(throwing: set<Callback>)
      returns (lane: Option<nat>, ticket: Ticket, panic: seq<Call<PanicBusMessage>>)
      requires Valid()
      modifies workers
      ensures Valid()
      ensures lane.None? <==> workers == []
      ensures lane.None? ==>
        && |panic| == |panicBus.pubSub.subscribers|
        && forall i :: 0 <= i < |panic| ==>
          panic[i] == Call(panicBus.pubSub.subscribers[i], NoWorkersMessage,
                           panicBus.pubSub.subscribers[i] in throwing)
      ensures lane.Some? ==>
        && IsFirstMinimum(old(ActiveCounts(workers)), lane.value)
        && panic == []
        && ticket == old(workers[lane.value].submitted)
        && workers[lane.value].chain == old(workers[lane.value].chain) + [ticket]
        && workers[lane.value].activeTasks == old(workers[lane.value].activeTasks) + 1
        && workers[lane.value].submitted == old(workers[lane.value].submitted) + 1
        && workers[lane.value].results == old(workers[lane.value].results)
      ensures forall i :: 0 <= i < |workers| && lane != Some(i) ==> unchanged(workers[i])
    {
      lane, panic := GetLessBusyWorker(throwing);
      ticket := 0;
      if lane.Some? {
        var chosen := workers[lane.value];
        ticket := chosen.SubmitAndGetResult();
        assert forall i :: 0 <= i < |workers| && i != lane.value ==> workers[i] != chosen;
      }
    }
  }
}
