/**
 * basicQueryOptimization.js: `measureQuery` times a query, then fetches its
 * EXPLAIN plan and writes it as a text table; `runBasicQueryTests` runs four
 * queries whose projection depends on `INDEXES_ADDED`.
 */
module BasicQuery {
  import opened Wrappers
  import Text
  import Sql
  import Bench
  import QueryAdvanced

  // ------------------------------------------------------------ JS values

  /** The values an EXPLAIN row holds, as mysql2 hands them to JavaScript. */
  datatype JsValue = Undefined | Null | Bool(b: bool) | Num(n: int) | Str(s: string)

  /** One EXPLAIN row: its column names in order, with their values. */
  type PlanRow = seq<(string, JsValue)>

  function Keys(row: PlanRow): (ks: seq<string>)
    ensures |ks| == |row| && forall i :: 0 <= i < |row| ==> ks[i] == row[i].0
  {
    seq(|row|, i requires 0 <= i < |row| => row[i].0)
  }

  /** `row[col]`: the value of the first column of that name, `undefined` if there is none. */
  function Get(row: PlanRow, col: string): (v: JsValue)
    ensures col !in Keys(row) ==> v == Undefined
    decreases |row|
  {
    if row == [] then Undefined
    else if row[0].0 == col then row[0].1
    else Get(row[1..], col)
  }

  lemma {:induction false} GetFirst(row: PlanRow, i: nat)
    requires i < |row| && forall j :: 0 <= j < i ==> row[j].0 != row[i].0
    ensures Get(row, row[i].0) == row[i].1
    decreases i
  {
    if i > 0 {
      assert row[0].0 != row[i].0;
      assert row[1..][i - 1] == row[i];
      GetFirst(row[1..], i - 1);
    }
  }

  /** JavaScript's falsy values among these (NaN and -0 are not modelled). */
  predicate Falsy(v: JsValue) {
    v.Undefined? || v.Null? || v == Bool(false) || v == Num(0) || v == Str("")
  }

  function Digit(d: nat): char
    requires d < 10
  {
    "0123456789"[d]
  }

  /** The decimal digits of `n`, most significant first. */
  function Digits(n: nat): (r: string)
    ensures |r| > 0 && forall i :: 0 <= i < |r| ==> '0' <= r[i] <= '9'
  {
    if n < 10 then [Digit(n)] else Digits(n / 10) + [Digit(n % 10)]
  }

  /** The number a string of decimal digits denotes. */
  function DigitsValue(s: string): nat
    requires forall i :: 0 <= i < |s| ==> '0' <= s[i] <= '9'
  {
    if s == [] then 0 else 10 * DigitsValue(s[..|s| - 1]) + (s[|s| - 1] - '0') as nat
  }

  lemma {:induction false} DigitsRoundTrip(n: nat)
    ensures DigitsValue(Digits(n)) == n
  {
    var s := Digits(n);
    if n >= 10 {
      DigitsRoundTrip(n / 10);
      assert s[..|s| - 1] == Digits(n / 10);
    }
  }

  /** `String(n)` for an integer. */
  function NumberText(n: int): (r: string)
    ensures |r| > 0
  {
    if n < 0 then "-" + Digits(-n) else Digits(n)
  }

  /** `String(v || '')`: the empty string for a falsy value, the value's text otherwise. */
  function Render(v: JsValue): (r: string)
    ensures r == "" <==> Falsy(v)
    ensures v.Str? && v.s != "" ==> r == v.s
    ensures v.Num? && v.n > 0 ==>
              (forall i :: 0 <= i < |r| ==> '0' <= r[i] <= '9') && DigitsValue(r) == v.n
  {
    if Falsy(v) then ""
    else match v
      case Bool(_) => "true"
      case Num(n) =>
        if n > 0 then DigitsRoundTrip(n); NumberText(n) else NumberText(n)
      case Str(s) => s
  }

  // ------------------------------------------------------------ the table

  const ColumnSeparator: string := " | "
  const Rule: string := "----------"

  /** The cells of one row, in the order of the header's columns. */
  function Cells(row: PlanRow, columns: seq<string>): (cs: seq<string>)
    ensures |cs| == |columns|
  {
    seq(|columns|, j requires 0 <= j < |columns| => Render(Get(row, columns[j])))
  }

  /**
   * The lines `measureQuery` writes for an EXPLAIN result: the first row's
   * column names, a rule per column, then one line per row. With no row,
   * `Object.keys(explainResults[0])` throws: None.
   */
  function ExplainLines(plan: seq<PlanRow>): (lines: Option<seq<string>>)
    ensures lines.Some? <==> |plan| > 0
    ensures lines.Some? ==> |lines.value| == 2 + |plan|
  {
    if plan == [] then None
    else
      var columns := Keys(plan[0]);
      Some([Text.Join(columns, ColumnSeparator),
            Text.Join(seq(|columns|, _ => Rule), ColumnSeparator)] +
           seq(|plan|, k requires 0 <= k < |plan| => Text.Join(Cells(plan[k], columns), ColumnSeparator)))
  }

  /** No cell contains the bar of the column separator. */
  predicate NoBar(xs: seq<string>) {
    forall i :: 0 <= i < |xs| ==> '|' !in xs[i]
  }

  /** Read back, the header line is the first row's column names. */
  lemma HeaderLine(plan: seq<PlanRow>)
    requires |plan| > 0 && |plan[0]| > 0 && NoBar(Keys(plan[0]))
    ensures Text.Split(ExplainLines(plan).value[0], ColumnSeparator) == Keys(plan[0])
  {
    Text.SplitJoin(Keys(plan[0]), ColumnSeparator);
  }

  /** Read back, the rule line is one `----------` per column. */
  lemma RuleLine(plan: seq<PlanRow>)
    requires |plan| > 0 && |plan[0]| > 0
    ensures var cells := Text.Split(ExplainLines(plan).value[1], ColumnSeparator);
            |cells| == |plan[0]| && forall j :: 0 <= j < |cells| ==> cells[j] == "----------"
  {
    var columns := Keys(plan[0]);
    Text.SplitJoin(seq(|columns|, _ => Rule), ColumnSeparator);
  }

  /**
   * Read back, line `2 + k` holds row `k`'s values in header order: cell `j`
   * is the rendering of the row's value for header column `j`, so a column
   * the row lacks, and any falsy value, gives an empty cell.
   */
  lemma ValueLine(plan: seq<PlanRow>, k: nat)
    requires k < |plan| && |plan[0]| > 0
    requires NoBar(Cells(plan[k], Keys(plan[0])))
    ensures var cells := Text.Split(ExplainLines(plan).value[2 + k], ColumnSeparator);
            var columns := Keys(plan[0]);
            |cells| == |columns| &&
            forall j :: 0 <= j < |columns| ==>
              cells[j] == Render(Get(plan[k], columns[j])) &&
              (cells[j] == "" <==> Falsy(Get(plan[k], columns[j]))) &&
              (columns[j] !in Keys(plan[k]) ==> cells[j] == "")
  {
    var columns := Keys(plan[0]);
    Text.SplitJoin(Cells(plan[k], columns), ColumnSeparator);
  }

  /** A row with the same columns as the first renders each of its own values in place. */
  lemma SameColumns(plan: seq<PlanRow>, k: nat, j: nat)
    requires k < |plan| && Keys(plan[k]) == Keys(plan[0]) && j < |plan[0]|
    requires forall i :: 0 <= i < j ==> plan[k][i].0 != plan[k][j].0
    ensures Cells(plan[k], Keys(plan[0]))[j] == Render(plan[k][j].1)
  {
    GetFirst(plan[k], j);
  }

  // ------------------------------------------------------------ measuring

  /** The server's answers to one `measureQuery`; `plan` is None when EXPLAIN is rejected. */
  datatype Answer =
    | QueryRejected
    | Answered(seconds: nat, nanoseconds: nat, rows: nat, plan: Option<seq<PlanRow>>)

  /** The requests of `measureQuery`: the timed query first, its EXPLAIN after. */
  function MeasureTrace(query: string, params: seq<Sql.SqlValue>, answer: Answer): seq<Sql.Request> {
    var run := Sql.Execute(query, params);
    match answer
    case QueryRejected => [Sql.StartTimer, run]
    case Answered(_, _, _, _) => [Sql.StartTimer, run, Sql.StopTimer, Sql.Execute("EXPLAIN " + query, params)]
  }

  /** Whether `measureQuery` returns: both requests answered and the plan not empty. */
  predicate Completes(answer: Answer) {
    answer.Answered? && answer.plan.Some? && |answer.plan.value| > 0
  }

  /** `measureQuery`: its result, its requests and the table lines it writes. */
  function MeasureQuery(query: string, params: seq<Sql.SqlValue>, answer: Answer)
    : (r: (Option<(real, nat)>, seq<Sql.Request>, seq<string>))
    ensures r.1 == MeasureTrace(query, params, answer)
    ensures r.0.Some? <==> Completes(answer)
    ensures Completes(answer) ==>
              r.0 == Some((Bench.ElapsedMs(answer.seconds, answer.nanoseconds), answer.rows)) &&
              r.2 == ExplainLines(answer.plan.value).value
    ensures !Completes(answer) ==> r.2 == []
  {
    var trace := MeasureTrace(query, params, answer);
    if Completes(answer)
    then (Some((Bench.ElapsedMs(answer.seconds, answer.nanoseconds), answer.rows)), trace,
          ExplainLines(answer.plan.value).value)
    else (None, trace, [])
  }

  /**
   * `measureQuery` times the query alone and asks for its plan only after the
   * timer stops; `analyzeQuery` times the same single request but asks for
   * the plan first.
   */
  lemma MeasureOrder(query: string, params: seq<Sql.SqlValue>, answer: Answer, seconds: nat, nanoseconds: nat, rows: nat)
    requires answer.Answered?
    ensures var t := MeasureTrace(query, params, answer);
            Bench.BeforeStart(t) == [] &&
            Bench.Timed(t) == Some([Sql.Execute(query, params)]) &&
            Bench.AfterStop(t) == [Sql.Execute("EXPLAIN " + query, params)] &&
            Bench.Timed(t) == Bench.Timed(QueryAdvanced.AnalyzeTrace(query, params,
                                QueryAdvanced.Answered(seconds, nanoseconds, rows)))
  {
    var t := MeasureTrace(query, params, answer);
    var run := Sql.Execute(query, params);
    var explain := Sql.Execute("EXPLAIN " + query, params);
    assert t[1..] == [run, Sql.StopTimer, explain];
    QueryAdvanced.UntilStopCons(run, [Sql.StopTimer, explain]);
    assert [Sql.StopTimer, explain][1..] == [explain];
    assert Bench.UntilStop([Sql.StopTimer, explain]) == ([], true);
    assert [run] + [] == [run];
    assert t[1..][1..] == [Sql.StopTimer, explain];
    assert t[1..][1..][1..] == [explain];
    assert Bench.AfterStop(t[1..][1..]) == [explain];
    assert Bench.AfterStop(t[1..]) == [explain];
    QueryAdvanced.AnalyzeOrder(query, params, QueryAdvanced.Answered(seconds, nanoseconds, rows));
  }

  // ------------------------------------------------------------ the tests

  function UseIndexes(indexesAdded: Option<string>): bool {
    indexesAdded == Some("true")
  }

  const Descriptions: seq<string> := [
    "1. Basic equality query (simple WHERE clause)",
    "2. Query with IN clause (multiple specific values)",
    "3. Query with BETWEEN (range of values)",
    "4. Query with multiple conditions (AND)"]

  const IndexedProjection: string := "SELECT user_id, token_type, client_id"
  const PlainProjection: string := "SELECT *"

  /** What follows the projection in each of the four queries. */
  const Conditions: seq<string> := [
    " FROM oauth_tokens WHERE user_id = ?",
    " FROM oauth_tokens WHERE user_id IN (?, ?, ?, ?, ?)",
    " FROM oauth_tokens WHERE user_id BETWEEN ? AND ?",
    " FROM oauth_tokens WHERE user_id = ? AND token_type = ?"]

  const TestParams: seq<seq<Sql.SqlValue>> := [
    [Sql.IntValue(10)],
    [Sql.IntValue(10), Sql.IntValue(20), Sql.IntValue(30), Sql.IntValue(40), Sql.IntValue(50)],
    [Sql.IntValue(5), Sql.IntValue(15)],
    [Sql.IntValue(10), Sql.TextValue("Bearer")]]

  /** The cases `runBasicQueryTests` measures, in order. */
  function BasicCases(indexesAdded: Option<string>): (cases: seq<Bench.Case>)
    ensures |cases| == 4
  {
    var projection := if UseIndexes(indexesAdded) then IndexedProjection else PlainProjection;
    seq(4, k requires 0 <= k < 4 => Bench.Case(Descriptions[k], projection + Conditions[k], Some(TestParams[k])))
  }

  /**
   * Only `INDEXES_ADDED` exactly "true" selects the narrow projection; the
   * condition and the parameters of each query are the same either way.
   */
  lemma ProjectionChoice(indexesAdded: Option<string>, k: nat)
    requires k < 4
    ensures var q := BasicCases(indexesAdded)[k].query;
            (IndexedProjection <= q <==> indexesAdded == Some("true")) &&
            (PlainProjection <= q <==> indexesAdded != Some("true")) &&
            |Conditions[k]| <= |q| && q[|q| - |Conditions[k]|..] == Conditions[k]
    ensures BasicCases(indexesAdded)[k].params == Some(TestParams[k])
  {
    var q := BasicCases(indexesAdded)[k].query;
    var c := Conditions[k];
    if UseIndexes(indexesAdded) {
      assert q == IndexedProjection + c;
      assert q[..|IndexedProjection|] == IndexedProjection;
      assert q[7] == 'u';
    } else {
      assert q == PlainProjection + c;
      assert q[..|PlainProjection|] == PlainProjection;
      assert q[7] == '*';
    }
    assert q[|q| - |c|..] == c;
  }

  /**
   * Two settings give the same query text exactly when both or neither are
   * "true"; the parameters never differ.
   */
  lemma SameQueries(a: Option<string>, b: Option<string>, k: nat)
    requires k < 4
    ensures BasicCases(a)[k].query == BasicCases(b)[k].query <==> UseIndexes(a) == UseIndexes(b)
    ensures BasicCases(a)[k].params == BasicCases(b)[k].params
  {
    if UseIndexes(a) != UseIndexes(b) {
      var c := Conditions[k];
      assert (IndexedProjection + c)[7] == 'u';
      assert (PlainProjection + c)[7] == '*';
    }
  }

  /**
   * `runBasicQueryTests` after connecting: the cases in order, the first
   * failure ending the run. Gives each completed case's measurement, every
   * request sent and the EXPLAIN lines written.
   */
  function RunCases(cases: seq<Bench.Case>, answers: seq<Answer>)
    : (r: (seq<(real, nat)>, seq<Sql.Request>, seq<string>))
    requires |answers| == |cases|
    ensures |r.0| <= |cases|
    ensures forall k :: 0 <= k < |r.0| ==> Completes(answers[k])
    ensures |r.0| < |cases| ==> !Completes(answers[|r.0|])
    ensures forall k :: 0 <= k < |r.0| ==>
              Completes(answers[k]) &&
              r.0[k] == (Bench.ElapsedMs(answers[k].seconds, answers[k].nanoseconds), answers[k].rows)
    decreases |cases|
  {
    if cases == [] then ([], [], [])
    else
      var c := cases[0];
      var (measured, requests, lines) := MeasureQuery(c.query, Bench.ParamsOf(c), answers[0]);
      if measured.None? then ([], requests, lines)
      else
        var (more, requests', lines') := RunCases(cases[1..], answers[1..]);
        ([measured.value] + more, requests + requests', lines + lines')
  }

  function RunBasicQueryTests(indexesAdded: Option<string>, answers: seq<Answer>)
    : (r: (seq<(real, nat)>, seq<Sql.Request>, seq<string>))
    requires |answers| == 4
    ensures |r.0| <= 4
    ensures |r.0| == 4 <==> forall k :: 0 <= k < 4 ==> Completes(answers[k])
  {
    RunCases(BasicCases(indexesAdded), answers)
  }
}
