/**
 * What the two benchmark scripts share: a benchmark case, the server's answer
 * to a timed query, the millisecond figure computed from `process.hrtime`, and
 * the observable order of requests around the timer.
 */
module Bench {
  import opened Wrappers
  import Sql

  /** One entry of a comparison list; `params` is absent when the entry has none. */
  datatype Case = Case(description: string, query: string, params: Option<seq<Sql.SqlValue>>)

  /** `q.params || []`: a missing parameter list is the empty one. */
  function ParamsOf(c: Case): seq<Sql.SqlValue> {
    c.params.GetOr([])
  }

  /** `seconds * 1000 + nanoseconds / 1000000`, in exact arithmetic. */
  function ElapsedMs(seconds: nat, nanoseconds: nat): real {
    seconds as real * 1000.0 + nanoseconds as real / 1000000.0
  }

  datatype BenchResult = BenchResult(description: string, executionTime: real, rowCount: nat)

  /** The requests after the first StopTimer. */
  function AfterStop(t: seq<Sql.Request>): seq<Sql.Request>
    decreases |t|
  {
    if t == [] then [] else if t[0] == Sql.StopTimer then t[1..] else AfterStop(t[1..])
  }

  /** The requests before the first StopTimer, and whether there is one. */
  function UntilStop(t: seq<Sql.Request>): (r: (seq<Sql.Request>, bool))
    ensures r.0 <= t
    decreases |t|
  {
    if t == [] then ([], false)
    else if t[0] == Sql.StopTimer then ([], true)
    else var (u, stopped) := UntilStop(t[1..]); ([t[0]] + u, stopped)
  }

  /** The requests before the first StartTimer. */
  function BeforeStart(t: seq<Sql.Request>): seq<Sql.Request>
    decreases |t|
  {
    if t == [] || t[0] == Sql.StartTimer then [] else [t[0]] + BeforeStart(t[1..])
  }

  /**
   * The requests the timer measures: those between the first StartTimer and
   * the StopTimer after it; None when the timer is not both started and stopped.
   */
  function Timed(t: seq<Sql.Request>): Option<seq<Sql.Request>>
    decreases |t|
  {
    if t == [] then None
    else if t[0] == Sql.StartTimer then
      var (u, stopped) := UntilStop(t[1..]);
      if stopped then Some(u) else None
    else Timed(t[1..])
  }
}
