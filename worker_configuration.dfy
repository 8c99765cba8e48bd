/** The number of worker lanes, read from the `WORKERS` environment variable
    (src/services/WorkerConfiguration.ts). `Number.parseInt` is a parameter:
    it yields an integer, or `None` for NaN. */
module WorkerConfiguration {
  import opened Js

  const DefaultWorkers: int := 4

  /** The number `parseInt` produced. */
  function Parsed(parsed: Option<int>): JsNumber
  {
    if parsed.Some? then Num(parsed.value) else NaN
  }

  /** The constructor as written: an unset or empty `WORKERS` gives the
      default; otherwise the parsed number goes through `Math.max(1, ·)`,
      which also overwrites the default assigned on the NaN path, so a
      malformed value ends up NaN. (`Math.floor` of an integer is itself.) */
  function Workers(workersStr: Option<string>, parseInt: string -> Option<int>): (workers: JsNumber)
    ensures !Truthy(workersStr) ==> workers == Num(DefaultWorkers)
    ensures Truthy(workersStr) && parseInt(workersStr.value).Some? ==>
      workers == Num(if parseInt(workersStr.value).value >= 1 then parseInt(workersStr.value).value else 1)
    ensures Truthy(workersStr) && parseInt(workersStr.value).None? ==> workers.NaN?
    ensures workers.Num? ==> workers.n >= 1
  {
    if !Truthy(workersStr) then Num(DefaultWorkers)
    else MathMax(Num(1), Parsed(parseInt(workersStr.value)))
  }

  /** A malformed `WORKERS` value yields NaN, not the default of 4. */
  lemma MalformedWorkersIsNaN(workersStr: string, parseInt: string -> Option<int>)
    requires workersStr != [] && parseInt(workersStr) == None
    ensures Workers(Some(workersStr), parseInt) == NaN
    ensures Workers(Some(workersStr), parseInt) != Num(DefaultWorkers)
  {
  }

  /** What the NaN branch evidently intends: the default survives. */
  function IntendedWorkers(workersStr: Option<string>, parseInt: string -> Option<int>): (workers: JsNumber)
    ensures workers.Num? && workers.n >= 1
    ensures !Truthy(workersStr) || parseInt(workersStr.value).None? ==> workers == Num(DefaultWorkers)
    ensures Truthy(workersStr) && parseInt(workersStr.value).Some? ==>
      workers == Workers(workersStr, parseInt)
  {
    if !Truthy(workersStr) then Num(DefaultWorkers)
    else
      var parsed := parseInt(workersStr.value);
      if parsed.None? then Num(DefaultWorkers) else MathMax(Num(1), Num(parsed.value))
  }
}
