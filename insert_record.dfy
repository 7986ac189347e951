/**
 * insertRecord.js: random OAuth token records and the bulk loader that inserts
 * them in batches inside hand-committed transactions.
 *
 * `Math.random()` is not modelled: every `Math.floor(Math.random() * n)` is an
 * integer drawn from [0, n), given as data (`Draws`), and the clock reading
 * `new Date()` is the millisecond timestamp `now`. DATETIME texts are held as
 * whole seconds (`toISOString().slice(0, 19)` drops the milliseconds).
 */
module InsertRecord {
  import opened Wrappers
  import Sql
  import SetupDatabase

  const UsersCount: nat := 180
  const ClientsCount: nat := 18
  const TokenTypes: seq<string> := ["Bearer", "Refresh"]
  const Alphabet: string := "ABCDEFGHIJKLMNOPQRSTUVWXYZabcdefghijklmnopqrstuvwxyz0123456789"
  const DayMs: int := 24 * 60 * 60 * 1000
  const WeekMs: int := 7 * DayMs
  const DaySeconds: int := 24 * 60 * 60
  const WeekSeconds: int := 7 * DaySeconds
  /** Exclusive bounds of the two lifetime draws (days and weeks). */
  const LifetimeDays: nat := 365 * 24
  const RefreshWeeks: nat := 365 * 7

  // ---------------------------------------------------------------- records

  /** The draws of one `generateRandomData` call, in the order it makes them. */
  datatype Draws = Draws(
    user: int, client: int, tokenType: int,
    accessLength: int, accessChars: seq<int>,
    refreshLength: int, refreshChars: seq<int>,
    now: int, lifetime: int, refreshLifetime: int, expired: bool)

  predicate ValidPicks(picks: seq<int>) {
    forall i :: 0 <= i < |picks| ==> 0 <= picks[i] < |Alphabet|
  }

  /** What `Math.floor(Math.random() * n)` can return for each draw. */
  predicate ValidDraws(d: Draws) {
    0 <= d.user < UsersCount && 0 <= d.client < ClientsCount &&
    0 <= d.tokenType < |TokenTypes| &&
    0 <= d.accessLength < 41 && |d.accessChars| == d.accessLength + 40 && ValidPicks(d.accessChars) &&
    0 <= d.refreshLength < 33 && |d.refreshChars| == d.refreshLength + 32 && ValidPicks(d.refreshChars) &&
    0 <= d.lifetime < LifetimeDays && 0 <= d.refreshLifetime < RefreshWeeks
  }

  datatype TokenRecord = TokenRecord(
    userId: int, clientId: int, accessToken: string, tokenType: string, refreshToken: string,
    issuedAt: int, revokedAt: Option<int>, expiresAt: int, refreshTokenExpiresAt: int)

  predicate AlphabetOnly(s: string) {
    forall i :: 0 <= i < |s| ==> s[i] in Alphabet
  }

  /** The string `generateRandomString` builds from its character draws. */
  function RandomString(picks: seq<int>): (r: string)
    requires ValidPicks(picks)
    ensures |r| == |picks| && AlphabetOnly(r)
  {
    seq(|picks|, i requires 0 <= i < |picks| => Alphabet[picks[i]])
  }

  method GenerateRandomString(length: nat, picks: seq<int>) returns (result: string)
    requires |picks| == length && ValidPicks(picks)
    ensures result == RandomString(picks)
  {
    result := "";
    var i := 0;
    while i < length
      invariant 0 <= i <= length
      invariant result == RandomString(picks[..i])
    {
      result := result + [Alphabet[picks[i]]];
      i := i + 1;
    }
    assert picks[..i] == picks;
  }

  /** A millisecond timestamp as the DATETIME text keeps it: whole seconds, rounded down. */
  function Seconds(ms: int): int {
    ms / 1000
  }

  /** The record `generateRandomData` returns for the given draws. */
  function Token(d: Draws): TokenRecord
    requires ValidDraws(d)
  {
    TokenRecord(
      d.user + 1, d.client + 1, RandomString(d.accessChars), TokenTypes[d.tokenType],
      RandomString(d.refreshChars), Seconds(d.now),
      if d.expired then Some(Seconds(d.now + (d.lifetime + 30) * DayMs)) else None,
      Seconds(d.now + d.lifetime * DayMs), Seconds(d.now + d.refreshLifetime * WeekMs))
  }

  method GenerateRandomData(d: Draws) returns (record: TokenRecord)
    requires ValidDraws(d)
    ensures record == Token(d)
    ensures WellFormed(record)
  {
    var accessToken := GenerateRandomString(d.accessLength + 40, d.accessChars);
    var refreshToken := GenerateRandomString(d.refreshLength + 32, d.refreshChars);
    var issuedAt := Seconds(d.now);
    var expiresAt := Seconds(d.now + d.lifetime * DayMs);
    var refreshExpiresAt := Seconds(d.now + d.refreshLifetime * WeekMs);
    var revokedAt := if d.expired then Some(Seconds(d.now + (d.lifetime + 30) * DayMs)) else None;
    record := TokenRecord(d.user + 1, d.client + 1, accessToken, TokenTypes[d.tokenType],
                          refreshToken, issuedAt, revokedAt, expiresAt, refreshExpiresAt);
    TokenWellFormed(d);
  }

  predicate WholeUnits(x: int, unit: int, bound: nat)
    requires unit > 0
  {
    0 <= x && x % unit == 0 && x / unit < bound
  }

  /**
   * The records `generateRandomData` can produce: ids in range, a known token
   * type, tokens of the documented lengths over the alphabet, expiry a whole
   * number of days, fewer than 365 * 24, after issue (refresh expiry: a whole
   * number of weeks, fewer than 365 * 7), and no revocation or one exactly 30
   * days after expiry.
   */
  predicate WellFormed(r: TokenRecord) {
    1 <= r.userId <= UsersCount && 1 <= r.clientId <= ClientsCount &&
    r.tokenType in TokenTypes &&
    40 <= |r.accessToken| <= 80 && AlphabetOnly(r.accessToken) &&
    32 <= |r.refreshToken| <= 64 && AlphabetOnly(r.refreshToken) &&
    WholeUnits(r.expiresAt - r.issuedAt, DaySeconds, LifetimeDays) &&
    WholeUnits(r.refreshTokenExpiresAt - r.issuedAt, WeekSeconds, RefreshWeeks) &&
    (r.revokedAt.None? || r.revokedAt == Some(r.expiresAt + 30 * DaySeconds))
  }

  lemma SecondsShift(ms: int, k: int)
    ensures Seconds(ms + k * 1000) == Seconds(ms) + k
  {
  }

  /** Every record generated from valid draws is well formed. */
  lemma TokenWellFormed(d: Draws)
    requires ValidDraws(d)
    ensures WellFormed(Token(d))
  {
    var r := Token(d);
    SecondsShift(d.now, d.lifetime * DaySeconds);
    SecondsShift(d.now, d.refreshLifetime * WeekSeconds);
    SecondsShift(d.now, (d.lifetime + 30) * DaySeconds);
    assert r.expiresAt - r.issuedAt == d.lifetime * DaySeconds;
    assert r.refreshTokenExpiresAt - r.issuedAt == d.refreshLifetime * WeekSeconds;
  }

  /** The index of an element in a sequence that holds it. */
  function Position<T(==)>(x: T, s: seq<T>): (i: nat)
    requires x in s
    ensures i < |s| && s[i] == x
  {
    if s[0] == x then 0 else 1 + Position(x, s[1..])
  }

  function Picks(s: string): seq<int>
    requires AlphabetOnly(s)
  {
    seq(|s|, i requires 0 <= i < |s| => Position(s[i], Alphabet) as int)
  }

  /** Draws that reproduce a well-formed record (the clock read at its issue second). */
  function DrawsOf(r: TokenRecord): Draws
    requires WellFormed(r)
  {
    Draws(r.userId - 1, r.clientId - 1, Position(r.tokenType, TokenTypes),
          |r.accessToken| - 40, Picks(r.accessToken),
          |r.refreshToken| - 32, Picks(r.refreshToken),
          r.issuedAt * 1000, (r.expiresAt - r.issuedAt) / DaySeconds,
          (r.refreshTokenExpiresAt - r.issuedAt) / WeekSeconds, r.revokedAt.Some?)
  }

  /** Every string over the alphabet is what some character draws produce. */
  lemma RandomStringOnto(s: string)
    requires AlphabetOnly(s)
    ensures ValidPicks(Picks(s)) && RandomString(Picks(s)) == s
  {
  }

  /**
   * Conversely, every well-formed record is generated by some valid draws: the
   * predicate describes exactly the records `generateRandomData` can return.
   */
  lemma TokenOnto(r: TokenRecord)
    requires WellFormed(r)
    ensures ValidDraws(DrawsOf(r)) && Token(DrawsOf(r)) == r
  {
    var d := DrawsOf(r);
    RandomStringOnto(r.accessToken);
    RandomStringOnto(r.refreshToken);
    assert r.expiresAt - r.issuedAt == d.lifetime * DaySeconds;
    assert r.refreshTokenExpiresAt - r.issuedAt == d.refreshLifetime * WeekSeconds;
    SecondsShift(d.now, d.lifetime * DaySeconds);
    SecondsShift(d.now, d.refreshLifetime * WeekSeconds);
    SecondsShift(d.now, (d.lifetime + 30) * DaySeconds);
  }

  /** A zero lifetime draw makes the token expire the second it is issued. */
  lemma ZeroLifetime(d: Draws)
    requires ValidDraws(d) && d.lifetime == 0
    ensures Token(d).expiresAt == Token(d).issuedAt
  {
  }

  // ------------------------------------------------------------------- rows

  /** The column list of the INSERT, in the order of the value arrays. */
  const InsertColumns: seq<string> := [
    "user_id", "client_id", "access_token", "token_type", "refresh_token",
    "issued_at", "revoked_at", "expires_at", "refresh_token_expires_at"]

  function TimeOrNull(t: Option<int>): Sql.SqlValue {
    match t
    case None => Sql.NullValue
    case Some(s) => Sql.TimeValue(s)
  }

  /** The value array `batchInsert` builds from one record. */
  function Row(r: TokenRecord): seq<Sql.SqlValue> {
    [Sql.IntValue(r.userId), Sql.IntValue(r.clientId), Sql.TextValue(r.accessToken),
     Sql.TextValue(r.tokenType), Sql.TextValue(r.refreshToken), Sql.TimeValue(r.issuedAt),
     TimeOrNull(r.revokedAt), Sql.TimeValue(r.expiresAt), Sql.TimeValue(r.refreshTokenExpiresAt)]
  }

  /** A record's property of a given column name, as the record object holds it. */
  function Column(r: TokenRecord, name: string): Option<Sql.SqlValue> {
    if name == "user_id" then Some(Sql.IntValue(r.userId))
    else if name == "client_id" then Some(Sql.IntValue(r.clientId))
    else if name == "access_token" then Some(Sql.TextValue(r.accessToken))
    else if name == "token_type" then Some(Sql.TextValue(r.tokenType))
    else if name == "refresh_token" then Some(Sql.TextValue(r.refreshToken))
    else if name == "issued_at" then Some(Sql.TimeValue(r.issuedAt))
    else if name == "revoked_at" then Some(TimeOrNull(r.revokedAt))
    else if name == "expires_at" then Some(Sql.TimeValue(r.expiresAt))
    else if name == "refresh_token_expires_at" then Some(Sql.TimeValue(r.refreshTokenExpiresAt))
    else None
  }

  /** Each position of the value array holds the property named by the same position of the column list. */
  lemma RowFollowsColumns(r: TokenRecord)
    ensures |Row(r)| == |InsertColumns|
    ensures forall k :: 0 <= k < |InsertColumns| ==> Column(r, InsertColumns[k]) == Some(Row(r)[k])
  {
  }

  /** The inserted columns are the table's columns after the auto-increment `id`. */
  lemma ColumnsMatchTable()
    ensures SetupDatabase.ColumnNames(SetupDatabase.TokenColumns) == ["id"] + InsertColumns
  {
  }

  /** Reads a record back from a value array of the INSERT's shape. */
  function RecordOfRow(row: seq<Sql.SqlValue>): Option<TokenRecord> {
    if |row| == 9 && row[0].IntValue? && row[1].IntValue? && row[2].TextValue? &&
       row[3].TextValue? && row[4].TextValue? && row[5].TimeValue? &&
       (row[6].NullValue? || row[6].TimeValue?) && row[7].TimeValue? && row[8].TimeValue?
    then Some(TokenRecord(row[0].i, row[1].i, row[2].s, row[3].s, row[4].s, row[5].seconds,
                          if row[6].NullValue? then None else Some(row[6].seconds),
                          row[7].seconds, row[8].seconds))
    else None
  }

  /** No field is lost or swapped on the way into the value array. */
  lemma RowRoundTrip(r: TokenRecord)
    ensures RecordOfRow(Row(r)) == Some(r)
  {
  }

  function Records(ds: seq<Draws>): (rs: seq<TokenRecord>)
    requires forall i :: 0 <= i < |ds| ==> ValidDraws(ds[i])
    ensures |rs| == |ds|
  {
    seq(|ds|, i requires 0 <= i < |ds| => Token(ds[i]))
  }

  function Rows(rs: seq<TokenRecord>): seq<seq<Sql.SqlValue>> {
    seq(|rs|, i requires 0 <= i < |rs| => Row(rs[i]))
  }

  function InsertOf(records: seq<TokenRecord>): Sql.Stmt {
    Sql.Insert(SetupDatabase.TableName, InsertColumns, Rows(records))
  }

  /** `batchInsert`: one multi-row INSERT holding the batch's records in order. */
  method BatchInsert(server: Sql.Server, records: seq<TokenRecord>) returns (ok: bool)
    modifies server
    ensures (server.db, ok) == Sql.Step(old(server.db), InsertOf(records), server.faults)
    ensures server.log == old(server.log) + [InsertOf(records)]
  {
    ok := server.Execute(InsertOf(records));
  }

  // --------------------------------------------------------------- schedule

  function Min(a: int, b: int): int {
    if a <= b then a else b
  }

  /** `Math.ceil(totalRecords / batchSize)`: the least number of batches that holds every record. */
  function TotalBatches(total: nat, size: nat): (r: nat)
    requires size > 0
    ensures total <= r * size < total + size
  {
    var a := total + size - 1;
    assert a == (a / size) * size + a % size;
    a / size
  }

  /** Before batch `b` of `size` records, `Min(b * size, total)` records have been processed. */
  lemma BatchArith(total: nat, size: nat, b: nat)
    requires size > 0 && b < TotalBatches(total, size)
    ensures Min(b * size, total) == b * size < total
    ensures b * size + Min(size, total - b * size) == Min((b + 1) * size, total)
  {
    var tb := TotalBatches(total, size);
    assert (b + 1) * size <= tb * size;
    assert (b + 1) * size == b * size + size;
  }

  lemma AllBatchesArith(total: nat, size: nat, b: nat)
    requires size > 0 && b >= TotalBatches(total, size)
    ensures Min(b * size, total) == total
  {
    var tb := TotalBatches(total, size);
    assert b * size >= tb * size;
  }

  /** Batch `b` of `tb` is committed: every tenth batch, from the first, and the last. */
  predicate CommitDue(b: nat, tb: nat) {
    b % 10 == 0 || b == tb - 1
  }

  function CommitAfter(b: nat, tb: nat): seq<Sql.Stmt> {
    if CommitDue(b, tb) then [Sql.Session("COMMIT")] else []
  }

  /** The statements of the loop from batch `b` on, `processed` records having been inserted. */
  function BatchesFrom(total: nat, size: nat, records: seq<TokenRecord>, b: nat, processed: nat): seq<Sql.Stmt>
    requires size > 0 && |records| == total && processed <= total
    decreases TotalBatches(total, size) - b
  {
    var tb := TotalBatches(total, size);
    if b >= tb then []
    else
      var n := Min(size, total - processed);
      [InsertOf(records[processed..processed + n])] + CommitAfter(b, tb) +
      BatchesFrom(total, size, records, b + 1, processed + n)
  }

  /** The statements still to come before batch `b`: the batches from `b` on and the restored settings. */
  function Remaining(total: nat, size: nat, records: seq<TokenRecord>, b: nat, processed: nat): seq<Sql.Stmt>
    requires size > 0 && |records| == total && processed <= total
  {
    BatchesFrom(total, size, records, b, processed) + Postlude
  }

  lemma RemainingUnfold(total: nat, size: nat, records: seq<TokenRecord>, b: nat, processed: nat)
    requires size > 0 && |records| == total && processed <= total
    requires b < TotalBatches(total, size)
    ensures var n := Min(size, total - processed);
            Remaining(total, size, records, b, processed) ==
            [InsertOf(records[processed..processed + n])] +
            (CommitAfter(b, TotalBatches(total, size)) + Remaining(total, size, records, b + 1, processed + n))
  {
  }

  const Prelude: seq<Sql.Stmt> := [Sql.Session("SET FOREIGN_KEY_CHECKS=0"), Sql.Session("SET autocommit=0")]
  const Postlude: seq<Sql.Stmt> := [Sql.Session("SET autocommit=1"), Sql.Session("SET FOREIGN_KEY_CHECKS=1")]

  /** Everything `main` sends once connected, when no statement fails. */
  function LoadPlan(total: nat, size: nat, records: seq<TokenRecord>): seq<Sql.Stmt>
    requires size > 0 && |records| == total
  {
    Prelude + BatchesFrom(total, size, records, 0, 0) + Postlude
  }

  /** The records of one batch: the inner loop of `main`. */
  method GenerateBatch(draws: seq<Draws>, from: nat, n: nat) returns (batch: seq<TokenRecord>)
    requires from + n <= |draws|
    requires forall i :: 0 <= i < |draws| ==> ValidDraws(draws[i])
    ensures batch == Records(draws[from..from + n])
  {
    batch := [];
    var i := 0;
    while i < n
      invariant 0 <= i <= n
      invariant batch == Records(draws[from..from + i])
    {
      var record := GenerateRandomData(draws[from + i]);
      batch := batch + [record];
      i := i + 1;
    }
  }

  /**
   * One iteration of the batch loop: generate, insert and, on schedule,
   * commit. `done` is what the run has sent before it.
   */
  method LoadBatch(server: Sql.Server, totalRecords: nat, batchSize: nat, draws: seq<Draws>,
                   batchNum: nat, processed: nat, ghost done: seq<Sql.Stmt>)
    returns (ok: bool, ghost sent: seq<Sql.Stmt>)
    requires batchSize > 0 && |draws| == totalRecords
    requires forall i :: 0 <= i < |draws| ==> ValidDraws(draws[i])
    requires batchNum < TotalBatches(totalRecords, batchSize)
    requires processed == Min(batchNum * batchSize, totalRecords)
    modifies server
    ensures processed + Min(batchSize, totalRecords - processed) == Min((batchNum + 1) * batchSize, totalRecords)
    ensures server.log == old(server.log) + sent
    ensures var next := Remaining(totalRecords, batchSize, Records(draws), batchNum + 1,
                                  processed + Min(batchSize, totalRecords - processed));
            Sql.Prepend(done, Sql.Run(old(server.db),
              Remaining(totalRecords, batchSize, Records(draws), batchNum, processed), server.faults)) ==
            if ok then Sql.Prepend(done + sent, Sql.Run(server.db, next, server.faults))
            else Sql.Outcome(server.db, done + sent, false)
  {
    BatchArith(totalRecords, batchSize, batchNum);
    var tb := TotalBatches(totalRecords, batchSize);
    var n := Min(batchSize, totalRecords - processed);
    var batch := GenerateBatch(draws, processed, n);
    assert batch == Records(draws)[processed..processed + n];
    ghost var after := Remaining(totalRecords, batchSize, Records(draws), batchNum + 1, processed + n);
    RemainingUnfold(totalRecords, batchSize, Records(draws), batchNum, processed);
    ok := server.ExecuteNext(InsertOf(batch), CommitAfter(batchNum, tb) + after, done);
    sent := [InsertOf(batch)];
    if ok && (batchNum % 10 == 0 || batchNum == tb - 1) {
      var st := Sql.Session("COMMIT");
      assert CommitAfter(batchNum, tb) + after == [st] + after;
      ok := server.ExecuteNext(st, after, done + sent);
      assert done + sent + [st] == done + (sent + [st]);
      sent := sent + [st];
    } else if ok {
      assert CommitAfter(batchNum, tb) + after == after;
    }
  }

  /** The rows of every INSERT of a plan, in the order they are sent. */
  function InsertedRows(plan: seq<Sql.Stmt>): seq<seq<Sql.SqlValue>>
    decreases |plan|
  {
    if plan == [] then [] else (if plan[0].Insert? then plan[0].rows else []) + InsertedRows(plan[1..])
  }

  /** The number of rows of each INSERT of a plan, in order. */
  function InsertSizes(plan: seq<Sql.Stmt>): seq<nat>
    decreases |plan|
  {
    if plan == [] then [] else (if plan[0].Insert? then [|plan[0].rows|] else []) + InsertSizes(plan[1..])
  }

  lemma {:induction false} InsertedAppend(a: seq<Sql.Stmt>, b: seq<Sql.Stmt>)
    ensures InsertedRows(a + b) == InsertedRows(a) + InsertedRows(b)
    ensures InsertSizes(a + b) == InsertSizes(a) + InsertSizes(b)
    decreases |a|
  {
    if a == [] {
      assert a + b == b;
    } else {
      assert (a + b)[0] == a[0];
      assert (a + b)[1..] == a[1..] + b;
      InsertedAppend(a[1..], b);
    }
  }

  lemma RowsAppend(a: seq<TokenRecord>, b: seq<TokenRecord>)
    ensures Rows(a) + Rows(b) == Rows(a + b)
  {
  }

  lemma NoInserts(plan: seq<Sql.Stmt>)
    requires forall k :: 0 <= k < |plan| ==> plan[k].Session?
    ensures InsertedRows(plan) == [] && InsertSizes(plan) == []
    decreases |plan|
  {
    if plan != [] {
      NoInserts(plan[1..]);
    }
  }

  /** The INSERTs of the loop from batch `b` on hold the remaining records, in order. */
  lemma {:induction false} BatchesRows(total: nat, size: nat, records: seq<TokenRecord>, b: nat, processed: nat)
    requires size > 0 && |records| == total
    requires processed == Min(b * size, total)
    ensures InsertedRows(BatchesFrom(total, size, records, b, processed)) == Rows(records[processed..])
    decreases TotalBatches(total, size) - b
  {
    var tb := TotalBatches(total, size);
    if b >= tb {
      AllBatchesArith(total, size, b);
    } else {
      BatchArith(total, size, b);
      var n := Min(size, total - processed);
      var ins := InsertOf(records[processed..processed + n]);
      var rest := BatchesFrom(total, size, records, b + 1, processed + n);
      var head := [ins] + CommitAfter(b, tb);
      assert BatchesFrom(total, size, records, b, processed) == head + rest;
      InsertedAppend(head, rest);
      InsertedAppend([ins], CommitAfter(b, tb));
      NoInserts(CommitAfter(b, tb));
      assert InsertedRows([ins]) == ins.rows + InsertedRows([ins][1..]);
      assert InsertedRows(head) == Rows(records[processed..processed + n]);
      BatchesRows(total, size, records, b + 1, processed + n);
      RowsAppend(records[processed..processed + n], records[processed + n..]);
      assert records[processed..processed + n] + records[processed + n..] == records[processed..];
      assert InsertedRows(head + rest) ==
             Rows(records[processed..processed + n]) + Rows(records[processed + n..]);
    }
  }

  /** Every generated record is inserted exactly once, in the order generated. */
  lemma AllRowsInserted(total: nat, size: nat, records: seq<TokenRecord>)
    requires size > 0 && |records| == total
    ensures InsertedRows(LoadPlan(total, size, records)) == Rows(records)
  {
    var batches := BatchesFrom(total, size, records, 0, 0);
    InsertedAppend(Prelude + batches, Postlude);
    InsertedAppend(Prelude, batches);
    NoInserts(Prelude);
    NoInserts(Postlude);
    BatchesRows(total, size, records, 0, 0);
    assert records[0..] == records;
  }

  lemma SizesCons(st: Sql.Stmt, rest: seq<Sql.Stmt>)
    ensures InsertSizes([st] + rest) == (if st.Insert? then [|st.rows|] else []) + InsertSizes(rest)
  {
    assert ([st] + rest)[0] == st && ([st] + rest)[1..] == rest;
  }

  lemma SizesUnfold(ins: Sql.Stmt, commit: seq<Sql.Stmt>, rest: seq<Sql.Stmt>)
    requires ins.Insert? && (commit == [] || commit == [Sql.Session("COMMIT")])
    ensures InsertSizes([ins] + (commit + rest)) == [|ins.rows|] + InsertSizes(rest)
  {
    SizesCons(ins, commit + rest);
    if commit == [] {
      assert commit + rest == rest;
    } else {
      assert commit + rest == [commit[0]] + rest;
      SizesCons(commit[0], rest);
    }
  }

  /** Batch `k` holds `Min(size, total - k * size)` records: full batches and a last partial one. */
  lemma {:induction false} BatchesSizes(total: nat, size: nat, records: seq<TokenRecord>, b: nat, processed: nat)
    requires size > 0 && |records| == total
    requires processed == Min(b * size, total) && b <= TotalBatches(total, size)
    ensures var sizes := InsertSizes(BatchesFrom(total, size, records, b, processed));
            |sizes| == TotalBatches(total, size) - b &&
            forall k :: b <= k < TotalBatches(total, size) ==> sizes[k - b] == Min(size, total - k * size)
    decreases TotalBatches(total, size) - b
  {
    var tb := TotalBatches(total, size);
    if b < tb {
      BatchArith(total, size, b);
      var next := Min((b + 1) * size, total);
      SizesStep(total, size, records, b, processed);
      BatchesSizes(total, size, records, b + 1, next);
      SizesShift(InsertSizes(BatchesFrom(total, size, records, b, processed)),
                 InsertSizes(BatchesFrom(total, size, records, b + 1, next)), total, size, b, tb);
    } else {
      assert BatchesFrom(total, size, records, b, processed) == [];
    }
  }

  /** 23 records in batches of 10 are inserted as batches of 10, 10 and 3 records. */
  lemma TwentyThreeRecords(records: seq<TokenRecord>)
    requires |records| == 23
    ensures TotalBatches(23, 10) == 3
    ensures InsertSizes(LoadPlan(23, 10, records)) == [10, 10, 3]
  {
    var batches := BatchesFrom(23, 10, records, 0, 0);
    BatchesSizes(23, 10, records, 0, 0);
    var sizes := InsertSizes(batches);
    assert sizes[0 - 0] == Min(10, 23 - 0 * 10);
    assert sizes[1 - 0] == Min(10, 23 - 1 * 10);
    assert sizes[2 - 0] == Min(10, 23 - 2 * 10);
    assert sizes == [10, 10, 3];
    InsertedAppend(Prelude, batches);
    InsertedAppend(Prelude + batches, Postlude);
    NoInserts(Prelude);
    NoInserts(Postlude);
  }

  lemma SizesStep(total: nat, size: nat, records: seq<TokenRecord>, b: nat, processed: nat)
    requires size > 0 && |records| == total
    requires processed == Min(b * size, total) && b < TotalBatches(total, size)
    ensures Min((b + 1) * size, total) <= total
    ensures InsertSizes(BatchesFrom(total, size, records, b, processed)) ==
            [Min(size, total - b * size)] + InsertSizes(BatchesFrom(total, size, records, b + 1, Min((b + 1) * size, total)))
  {
    BatchArith(total, size, b);
    BatchesUnfold(total, size, records, b, processed);
    var n := Min(size, total - processed);
    var ins := InsertOf(records[processed..processed + n]);
    SizesUnfold(ins, CommitAfter(b, TotalBatches(total, size)), BatchesFrom(total, size, records, b + 1, processed + n));
  }

  lemma SizesShift(sizes: seq<nat>, tail: seq<nat>, total: nat, size: nat, b: nat, tb: nat)
    requires b < tb && |tail| == tb - (b + 1)
    requires sizes == [Min(size, total - b * size)] + tail
    requires forall k :: b + 1 <= k < tb ==> tail[k - (b + 1)] == Min(size, total - k * size)
    ensures |sizes| == tb - b
    ensures forall k :: b <= k < tb ==> sizes[k - b] == Min(size, total - k * size)
  {
    forall k | b < k < tb
      ensures sizes[k - b] == Min(size, total - k * size)
    {
      assert sizes[k - b] == tail[k - (b + 1)];
    }
  }

  /**
   * A COMMIT follows every INSERT before the plan ends, and no more than
   * `limit` INSERTs make up one transaction; `pending` counts the INSERTs sent
   * since the last COMMIT.
   */
  predicate CommittedWithin(plan: seq<Sql.Stmt>, pending: nat, limit: nat)
    decreases |plan|
  {
    if plan == [] then pending == 0
    else if plan[0] == Sql.Session("COMMIT") then CommittedWithin(plan[1..], 0, limit)
    else if plan[0].Insert? then pending < limit && CommittedWithin(plan[1..], pending + 1, limit)
    else CommittedWithin(plan[1..], pending, limit)
  }

  /** The INSERTs sent before batch `b` that no COMMIT has yet followed. */
  function Pending(b: nat): nat {
    if b == 0 then 0 else (b - 1) % 10
  }

  lemma CommittedInsert(ins: Sql.Stmt, rest: seq<Sql.Stmt>, pending: nat, limit: nat)
    requires ins.Insert? && pending < limit && CommittedWithin(rest, pending + 1, limit)
    ensures CommittedWithin([ins] + rest, pending, limit)
  {
    assert ([ins] + rest)[0] == ins && ([ins] + rest)[1..] == rest;
  }

  lemma CommittedCommit(rest: seq<Sql.Stmt>, pending: nat, limit: nat)
    requires CommittedWithin(rest, 0, limit)
    ensures CommittedWithin([Sql.Session("COMMIT")] + rest, pending, limit)
  {
    var plan := [Sql.Session("COMMIT")] + rest;
    assert plan[0] == Sql.Session("COMMIT") && plan[1..] == rest;
  }

  lemma PendingNext(b: nat)
    ensures Pending(b) < 10
    ensures b % 10 == 0 ==> Pending(b + 1) == 0
    ensures b % 10 != 0 ==> Pending(b + 1) == Pending(b) + 1
  {
  }

  /** The unfolding of one batch: its INSERT, its COMMIT if scheduled, then the later batches. */
  lemma BatchesUnfold(total: nat, size: nat, records: seq<TokenRecord>, b: nat, processed: nat)
    requires size > 0 && |records| == total
    requires processed == Min(b * size, total) && b < TotalBatches(total, size)
    ensures var n := Min(size, total - processed);
            BatchesFrom(total, size, records, b, processed) ==
            [InsertOf(records[processed..processed + n])] +
            (CommitAfter(b, TotalBatches(total, size)) + BatchesFrom(total, size, records, b + 1, processed + n))
  {
    BatchArith(total, size, b);
  }

  lemma {:induction false} CommitsFrom(total: nat, size: nat, records: seq<TokenRecord>, b: nat, processed: nat)
    requires size > 0 && |records| == total
    requires processed == Min(b * size, total) && b < TotalBatches(total, size)
    ensures CommittedWithin(BatchesFrom(total, size, records, b, processed), Pending(b), 10)
    decreases TotalBatches(total, size) - b
  {
    var tb := TotalBatches(total, size);
    BatchArith(total, size, b);
    BatchesUnfold(total, size, records, b, processed);
    var n := Min(size, total - processed);
    var ins := InsertOf(records[processed..processed + n]);
    var rest := BatchesFrom(total, size, records, b + 1, processed + n);
    PendingNext(b);
    if b % 10 == 0 || b == tb - 1 {
      if b + 1 < tb {
        CommitsFrom(total, size, records, b + 1, processed + n);
      }
      CommittedCommit(rest, Pending(b) + 1, 10);
      assert CommitAfter(b, tb) == [Sql.Session("COMMIT")];
    } else {
      CommitsFrom(total, size, records, b + 1, processed + n);
      assert CommitAfter(b, tb) + rest == rest;
    }
    CommittedInsert(ins, CommitAfter(b, tb) + rest, Pending(b), 10);
  }

  /**
   * The commit schedule of `main`: every batch is committed before the
   * settings are restored, and a transaction holds at most ten batches.
   */
  lemma CommitSchedule(total: nat, size: nat, records: seq<TokenRecord>)
    requires size > 0 && |records| == total
    ensures CommittedWithin(BatchesFrom(total, size, records, 0, 0), 0, 10)
  {
    if 0 < TotalBatches(total, size) {
      CommitsFrom(total, size, records, 0, 0);
    }
  }

  /** For each INSERT of a plan, in order: whether the statement right after it is a COMMIT. */
  function CommitFlags(plan: seq<Sql.Stmt>): seq<bool>
    decreases |plan|
  {
    if plan == [] then []
    else
      (if plan[0].Insert? then [|plan| > 1 && plan[1] == Sql.Session("COMMIT")] else []) +
      CommitFlags(plan[1..])
  }

  /** The loop from batch `b` on sends nothing, or starts with an INSERT. */
  lemma BatchesHead(total: nat, size: nat, records: seq<TokenRecord>, b: nat, processed: nat)
    requires size > 0 && |records| == total
    requires processed == Min(b * size, total) && b <= TotalBatches(total, size)
    ensures var rest := BatchesFrom(total, size, records, b, processed);
            rest == [] || rest[0].Insert?
  {
    if b < TotalBatches(total, size) {
      BatchesUnfold(total, size, records, b, processed);
    }
  }

  lemma FlagsUnfold(ins: Sql.Stmt, commit: seq<Sql.Stmt>, rest: seq<Sql.Stmt>)
    requires ins.Insert? && (commit == [] || commit == [Sql.Session("COMMIT")])
    requires rest == [] || rest[0].Insert?
    ensures CommitFlags([ins] + (commit + rest)) == [commit != []] + CommitFlags(rest)
  {
    var plan := [ins] + (commit + rest);
    assert plan[0] == ins && plan[1..] == commit + rest;
    if commit == [] {
      assert commit + rest == rest;
    } else {
      var tail := commit + rest;
      assert tail[0] == Sql.Session("COMMIT") && tail[1..] == rest;
    }
  }

  lemma FlagsStep(total: nat, size: nat, records: seq<TokenRecord>, b: nat, processed: nat)
    requires size > 0 && |records| == total
    requires processed == Min(b * size, total) && b < TotalBatches(total, size)
    ensures Min((b + 1) * size, total) <= total
    ensures var tb := TotalBatches(total, size);
            CommitFlags(BatchesFrom(total, size, records, b, processed)) ==
            [CommitDue(b, tb)] +
            CommitFlags(BatchesFrom(total, size, records, b + 1, Min((b + 1) * size, total)))
  {
    var tb := TotalBatches(total, size);
    BatchArith(total, size, b);
    BatchesUnfold(total, size, records, b, processed);
    var n := Min(size, total - processed);
    BatchesHead(total, size, records, b + 1, processed + n);
    FlagsUnfold(InsertOf(records[processed..processed + n]), CommitAfter(b, tb),
                BatchesFrom(total, size, records, b + 1, processed + n));
  }

  lemma FlagsShift(flags: seq<bool>, tail: seq<bool>, b: nat, tb: nat)
    requires b < tb && |tail| == tb - (b + 1)
    requires flags == [CommitDue(b, tb)] + tail
    requires forall k :: b + 1 <= k < tb ==> tail[k - (b + 1)] == CommitDue(k, tb)
    ensures |flags| == tb - b
    ensures forall k :: b <= k < tb ==> flags[k - b] == CommitDue(k, tb)
  {
    forall k | b < k < tb
      ensures flags[k - b] == CommitDue(k, tb)
    {
      assert flags[k - b] == tail[k - (b + 1)];
    }
  }

  lemma {:induction false} BatchesCommits(total: nat, size: nat, records: seq<TokenRecord>, b: nat, processed: nat)
    requires size > 0 && |records| == total
    requires processed == Min(b * size, total) && b <= TotalBatches(total, size)
    ensures var tb, flags := TotalBatches(total, size), CommitFlags(BatchesFrom(total, size, records, b, processed));
            |flags| == tb - b &&
            forall k :: b <= k < tb ==> flags[k - b] == CommitDue(k, tb)
    decreases TotalBatches(total, size) - b
  {
    var tb := TotalBatches(total, size);
    if b < tb {
      BatchArith(total, size, b);
      var next := Min((b + 1) * size, total);
      FlagsStep(total, size, records, b, processed);
      BatchesCommits(total, size, records, b + 1, next);
      FlagsShift(CommitFlags(BatchesFrom(total, size, records, b, processed)),
                 CommitFlags(BatchesFrom(total, size, records, b + 1, next)), b, tb);
    } else {
      assert BatchesFrom(total, size, records, b, processed) == [];
    }
  }

  /**
   * Where the COMMITs go: INSERT `k` of the loop is followed at once by a
   * COMMIT exactly when `k` is a multiple of ten or the last batch.
   */
  lemma CommitPositions(total: nat, size: nat, records: seq<TokenRecord>)
    requires size > 0 && |records| == total
    ensures var tb, flags := TotalBatches(total, size), CommitFlags(BatchesFrom(total, size, records, 0, 0));
            |flags| == tb &&
            forall k :: 0 <= k < tb ==> (flags[k] <==> k % 10 == 0 || k == tb - 1)
  {
    var tb, flags := TotalBatches(total, size), CommitFlags(BatchesFrom(total, size, records, 0, 0));
    BatchesCommits(total, size, records, 0, 0);
    forall k | 0 <= k < tb
      ensures flags[k] <==> k % 10 == 0 || k == tb - 1
    {
      assert flags[k - 0] == CommitDue(k, tb);
    }
  }

  /** The configured run: 5,000,000 records in batches of 10,000 make 500 batches. */
  lemma ConfiguredBatches()
    ensures TotalBatches(5000000, 10000) == 500
  {
  }

  /** Two session statements awaited in turn, as the run's next statements after `done`. */
  method SendSettings(server: Sql.Server, settings: seq<Sql.Stmt>, ghost rest: seq<Sql.Stmt>, ghost done: seq<Sql.Stmt>)
    returns (ok: bool, ghost sent: seq<Sql.Stmt>)
    requires |settings| == 2
    modifies server
    ensures server.log == old(server.log) + sent
    ensures Sql.Prepend(done, Sql.Run(old(server.db), settings + rest, server.faults)) ==
            if ok then Sql.Prepend(done + sent, Sql.Run(server.db, rest, server.faults))
            else Sql.Outcome(server.db, done + sent, false)
  {
    assert settings + rest == [settings[0]] + ([settings[1]] + rest);
    ok := server.ExecuteNext(settings[0], [settings[1]] + rest, done);
    sent := [settings[0]];
    if ok {
      ok := server.ExecuteNext(settings[1], rest, done + sent);
      Sql.ConcatAssoc(done, sent, [settings[1]]);
      sent := sent + [settings[1]];
    }
  }

  /** The batch loop of `main`, as the part of the run that follows `done`. */
  method LoadBatches(server: Sql.Server, totalRecords: nat, batchSize: nat, draws: seq<Draws>,
                     ghost done: seq<Sql.Stmt>)
    returns (ok: bool, ghost sent: seq<Sql.Stmt>)
    requires batchSize > 0 && |draws| == totalRecords
    requires forall i :: 0 <= i < |draws| ==> ValidDraws(draws[i])
    modifies server
    ensures server.log == old(server.log) + sent
    ensures Sql.Prepend(done, Sql.Run(old(server.db), Remaining(totalRecords, batchSize, Records(draws), 0, 0), server.faults)) ==
            if ok then Sql.Prepend(done + sent, Sql.Run(server.db, Postlude, server.faults))
            else Sql.Outcome(server.db, done + sent, false)
  {
    ghost var result := Sql.Prepend(done, Sql.Run(server.db, Remaining(totalRecords, batchSize, Records(draws), 0, 0), server.faults));
    ghost var log0 := server.log;
    var tb := TotalBatches(totalRecords, batchSize);
    sent := [];
    assert done + sent == done;
    ok := true;
    var processed := 0;
    var batchNum := 0;
    while batchNum < tb
      invariant 0 <= batchNum <= tb
      invariant processed == Min(batchNum * batchSize, totalRecords)
      invariant server.log == log0 + sent
      invariant result == Sql.Prepend(done + sent, Sql.Run(server.db,
                  Remaining(totalRecords, batchSize, Records(draws), batchNum, processed), server.faults))
      decreases tb - batchNum
    {
      ghost var more;
      ok, more := LoadBatch(server, totalRecords, batchSize, draws, batchNum, processed, done + sent);
      Sql.ConcatAssoc(log0, sent, more);
      Sql.ConcatAssoc(done, sent, more);
      sent := sent + more;
      if !ok {
        return;
      }
      processed := processed + Min(batchSize, totalRecords - processed);
      batchNum := batchNum + 1;
    }
    AllBatchesArith(totalRecords, batchSize, batchNum);
    assert Remaining(totalRecords, batchSize, Records(draws), batchNum, processed) == Postlude;
  }

  /**
   * `main` once connected: sessions settings for the bulk load, then the
   * batches, with a COMMIT after batch 0, every tenth batch and the last one,
   * then the settings restored. The first statement that fails ends the
   * script; the settings are then not restored.
   */
  method BulkLoad(server: Sql.Server, totalRecords: nat, batchSize: nat, draws: seq<Draws>) returns (ok: bool)
    requires batchSize > 0 && |draws| == totalRecords
    requires forall i :: 0 <= i < |draws| ==> ValidDraws(draws[i])
    modifies server
    ensures var r := Sql.Run(old(server.db), LoadPlan(totalRecords, batchSize, Records(draws)), server.faults);
            server.db == r.db && server.log == old(server.log) + r.issued && ok == r.ok
  {
    ghost var log0 := server.log;
    ghost var result := Sql.Run(server.db, LoadPlan(totalRecords, batchSize, Records(draws)), server.faults);
    assert [] + result.issued == result.issued;
    ghost var sent, more;
    assert LoadPlan(totalRecords, batchSize, Records(draws)) == Prelude + Remaining(totalRecords, batchSize, Records(draws), 0, 0);
    ok, sent := SendSettings(server, Prelude, Remaining(totalRecords, batchSize, Records(draws), 0, 0), []);
    assert [] + sent == sent;
    if !ok {
      return;
    }
    ok, more := LoadBatches(server, totalRecords, batchSize, draws, sent);
    Sql.ConcatAssoc(log0, sent, more);
    sent := sent + more;
    if !ok {
      return;
    }
    assert Postlude == Postlude + [];
    ok, more := SendSettings(server, Postlude, [], sent);
    Sql.ConcatAssoc(log0, sent, more);
    sent := sent + more;
    assert sent + [] == sent;
  }
}
