/**
 * queryOptimizationAdvanced.js: `analyzeQuery` asks for the EXPLAIN plan, then
 * times the query; `compareQueries` analyses each case in turn and reports the
 * fastest. The server's answers are given per case as data; a rejected
 * request throws, which ends the comparison.
 */
module QueryAdvanced {
  import opened Wrappers
  import Sql
  import Bench

  /** The server's answers to the two requests of one case. */
  datatype Reply =
    | ExplainRejected
    | QueryRejected
    | Answered(seconds: nat, nanoseconds: nat, rows: nat)

  /** The requests `analyzeQuery` makes, in order, up to the first one rejected. */
  function AnalyzeTrace(query: string, params: seq<Sql.SqlValue>, reply: Reply): seq<Sql.Request> {
    var explain := Sql.Execute("EXPLAIN " + query, params);
    var run := Sql.Execute(query, params);
    match reply
    case ExplainRejected => [explain]
    case QueryRejected => [explain, Sql.StartTimer, run]
    case Answered(_, _, _) => [explain, Sql.StartTimer, run, Sql.StopTimer]
  }

  /** `analyzeQuery`: its requests, and `{ executionTime, rowCount }` unless a request was rejected. */
  function AnalyzeQuery(query: string, params: seq<Sql.SqlValue>, reply: Reply): (r: (Option<(real, nat)>, seq<Sql.Request>))
    ensures r.1 == AnalyzeTrace(query, params, reply)
    ensures r.0.Some? <==> reply.Answered?
    ensures reply.Answered? ==> r.0 == Some((Bench.ElapsedMs(reply.seconds, reply.nanoseconds), reply.rows))
  {
    var trace := AnalyzeTrace(query, params, reply);
    match reply
    case Answered(s, ns, rows) => (Some((Bench.ElapsedMs(s, ns), rows)), trace)
    case _ => (None, trace)
  }

  /**
   * The plan is requested before the timer starts, and the timer measures the
   * query alone, with the same parameters as the plan.
   */
  lemma AnalyzeOrder(query: string, params: seq<Sql.SqlValue>, reply: Reply)
    ensures var t := AnalyzeTrace(query, params, reply);
            t[0] == Sql.Execute("EXPLAIN " + query, params) &&
            (reply.ExplainRejected? ==> t == [t[0]]) &&
            (!reply.ExplainRejected? ==> Bench.BeforeStart(t) == [Sql.Execute("EXPLAIN " + query, params)]) &&
            (reply.Answered? <==> Bench.Timed(t) == Some([Sql.Execute(query, params)]))
  {
    var t := AnalyzeTrace(query, params, reply);
    var run := Sql.Execute(query, params);
    if !reply.ExplainRejected? {
      assert t[1..][0] == Sql.StartTimer;
      assert t[1..][1..] == t[2..];
      assert t[2..][0] == run;
      if reply.Answered? {
        assert t[2..] == [run, Sql.StopTimer];
        UntilStopCons(run, [Sql.StopTimer]);
        assert Bench.UntilStop([Sql.StopTimer]) == ([], true);
        assert [run] + [] == [run];
        assert Bench.Timed(t[1..]) == Some([run]);
      } else {
        assert t[2..] == [run];
        UntilStopCons(run, []);
      }
    }
  }

  lemma UntilStopCons(r: Sql.Request, rest: seq<Sql.Request>)
    requires r != Sql.StopTimer
    ensures Bench.UntilStop([r] + rest) == ([r] + Bench.UntilStop(rest).0, Bench.UntilStop(rest).1)
  {
    assert ([r] + rest)[1..] == rest;
  }

  /** The entry `compareQueries` records for an answered case. */
  function ResultOf(c: Bench.Case, reply: Reply): Bench.BenchResult
    requires reply.Answered?
  {
    Bench.BenchResult(c.description, Bench.ElapsedMs(reply.seconds, reply.nanoseconds), reply.rows)
  }

  /** The number of leading cases the server answered in full. */
  function Answered(replies: seq<Reply>): (n: nat)
    ensures n <= |replies|
    ensures forall j :: 0 <= j < n ==> replies[j].Answered?
    ensures n < |replies| ==> !replies[n].Answered?
    decreases |replies|
  {
    if replies == [] || !replies[0].Answered? then 0 else 1 + Answered(replies[1..])
  }

  /** The requests of the first `n` cases, one `analyzeQuery` after another. */
  function TraceOf(cases: seq<Bench.Case>, replies: seq<Reply>, n: nat): seq<Sql.Request>
    requires n <= |cases| == |replies|
  {
    if n == 0 then []
    else TraceOf(cases, replies, n - 1) +
         AnalyzeTrace(cases[n - 1].query, Bench.ParamsOf(cases[n - 1]), replies[n - 1])
  }

  /**
   * The index `results.reduce((prev, current) => prev.executionTime <
   * current.executionTime ? prev : current)` ends on: a least time, and the
   * last one among equals, since a tie keeps `current`.
   */
  function FastestIndex(results: seq<Bench.BenchResult>): (i: nat)
    requires |results| > 0
    ensures i < |results|
    ensures forall j :: 0 <= j < |results| ==> results[i].executionTime <= results[j].executionTime
    ensures forall j :: i < j < |results| ==> results[i].executionTime < results[j].executionTime
    decreases |results|
  {
    if |results| == 1 then 0
    else
      var last := |results| - 1;
      var prev := FastestIndex(results[..last]);
      assert results[..last][prev] == results[prev];
      if results[prev].executionTime < results[last].executionTime then prev else last
  }

  /**
   * `compareQueries`: every case is analysed in order and recorded; the first
   * rejected request ends it (`ok` false, no fastest). With no case at all the
   * reduce, having no initial value, throws as well.
   */
  method CompareQueries(cases: seq<Bench.Case>, replies: seq<Reply>)
    returns (ok: bool, results: seq<Bench.BenchResult>, trace: seq<Sql.Request>, fastest: Option<Bench.BenchResult>)
    requires |replies| == |cases|
    ensures var n := Answered(replies);
            |results| == n &&
            forall j :: 0 <= j < n ==> results[j] == ResultOf(cases[j], replies[j])
    ensures trace == TraceOf(cases, replies, if Answered(replies) < |cases| then Answered(replies) + 1 else |cases|)
    ensures ok <==> Answered(replies) == |cases| && |cases| > 0
    ensures fastest.Some? <==> ok
    ensures ok ==> fastest == Some(results[FastestIndex(results)])
  {
    results := [];
    trace := [];
    var i := 0;
    while i < |cases|
      invariant 0 <= i <= |cases|
      invariant forall j :: 0 <= j < i ==> replies[j].Answered?
      invariant |results| == i
      invariant forall j :: 0 <= j < i ==> results[j] == ResultOf(cases[j], replies[j])
      invariant trace == TraceOf(cases, replies, i)
    {
      var q := cases[i];
      var (measured, requests) := AnalyzeQuery(q.query, Bench.ParamsOf(q), replies[i]);
      trace := trace + requests;
      if measured.None? {
        NotAnsweredAt(replies, i);
        ok, fastest := false, None;
        return;
      }
      assert replies[i].Answered?;
      var (executionTime, rowCount) := measured.value;
      ghost var before := results;
      results := results + [Bench.BenchResult(q.description, executionTime, rowCount)];
      assert results[i] == ResultOf(cases[i], replies[i]);
      assert forall j :: 0 <= j < i ==> results[j] == before[j];
      i := i + 1;
    }
    AllAnswered(replies);
    if |results| == 0 {
      ok, fastest := false, None;
      return;
    }
    ok := true;
    fastest := Some(results[FastestIndex(results)]);
  }

  lemma {:induction false} NotAnsweredAt(replies: seq<Reply>, i: nat)
    requires i < |replies| && !replies[i].Answered?
    requires forall j :: 0 <= j < i ==> replies[j].Answered?
    ensures Answered(replies) == i
    decreases i
  {
    if i > 0 {
      assert replies[0].Answered?;
      NotAnsweredAt(replies[1..], i - 1);
    }
  }

  lemma {:induction false} AllAnswered(replies: seq<Reply>)
    requires forall j :: 0 <= j < |replies| ==> replies[j].Answered?
    ensures Answered(replies) == |replies|
    decreases |replies|
  {
    if replies != [] {
      AllAnswered(replies[1..]);
    }
  }

  /** The fastest result is one of the results, recorded for one of the cases. */
  lemma FastestIsACase(cases: seq<Bench.Case>, replies: seq<Reply>, results: seq<Bench.BenchResult>)
    requires |replies| == |cases| && Answered(replies) == |cases| && |cases| > 0
    requires |results| == |cases| && forall j :: 0 <= j < |cases| ==> results[j] == ResultOf(cases[j], replies[j])
    ensures var i := FastestIndex(results);
            results[i].description == cases[i].description &&
            forall j :: 0 <= j < |replies| ==>
              Bench.ElapsedMs(replies[i].seconds, replies[i].nanoseconds) <=
              Bench.ElapsedMs(replies[j].seconds, replies[j].nanoseconds)
  {
    var i := FastestIndex(results);
    forall j | 0 <= j < |replies|
      ensures Bench.ElapsedMs(replies[i].seconds, replies[i].nanoseconds) <=
              Bench.ElapsedMs(replies[j].seconds, replies[j].nanoseconds)
    {
      assert results[i].executionTime <= results[j].executionTime;
    }
  }

  /** Times 12.4, 3.1 and 9.0 ms: the second case is the fastest. */
  lemma FastestExample()
    ensures FastestIndex([Bench.BenchResult("a", 12.4, 1), Bench.BenchResult("b", 3.1, 1),
                          Bench.BenchResult("c", 9.0, 1)]) == 1
  {
    var rs := [Bench.BenchResult("a", 12.4, 1), Bench.BenchResult("b", 3.1, 1), Bench.BenchResult("c", 9.0, 1)];
    assert rs[..2][..1] == [rs[0]];
    assert rs[..2] == [rs[0], rs[1]];
  }

  /** On a tie the later case wins. */
  lemma FastestTie()
    ensures FastestIndex([Bench.BenchResult("a", 5.0, 1), Bench.BenchResult("b", 5.0, 2)]) == 1
  {
    var rs := [Bench.BenchResult("a", 5.0, 1), Bench.BenchResult("b", 5.0, 2)];
    assert rs[..1] == [rs[0]];
  }
}
