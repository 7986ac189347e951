# mysql_query_optimization in Dafny

This project models the sequential logic in the scripts of a small MySQL
benchmarking repository. The scripts:

1. create an `oauth_tokens` table without secondary indexes (setupDatabase.js);
2. bulk-load millions of random token records into it in batches, with
   hand-placed COMMITs (insertRecord.js);
3. add or drop secondary indexes (addIndexes.js, ultimate_performance_fixed.js);
4. record whether indexes are present in `.env` (`INDEXES_ADDED=true|false`);
5. time queries and print their EXPLAIN plans (basicQueryOptimization.js,
   queryOptimizationAdvanced.js).

The MySQL server is abstracted to a catalog of databases, tables and
secondary indexes (`Sql.Db`). The scripts act on it only by sending
statements (`Sql.Stmt`):

- `Sql.Step` gives the effect of one statement. A statement fails for a
  reason the catalog explains (a taken index name, a missing index or
  table), because it is an INSERT with no rows (mysql2 expands `VALUES ?`
  of an empty array to nothing, which the server rejects), or because it is in the server's fixed set of `faults`. That set
  stands for everything else that can reject a statement: rights, lost
  connections, unknown settings.
- `Sql.Run` is a sequence of awaited statements. The first failure is
  thrown: the failing statement has been sent, nothing after it is.
- `Sql.RunAll` is a sequence whose failures are only reported.
- `Sql.Server` is the connection: its catalog, the log of every statement
  sent, and its faults.
- `Host.Machine` holds the rest of the state the scripts change:
  - the `.env` text (None when the file is absent);
  - whether the `.indexes_added` flag file exists;
  - the process variable `INDEXES_ADDED`.

Modules, one per script plus shared ones:

- `Text`: the JavaScript string operations used, with their edge cases:
  - `indexOf` and `lastIndexOf` with a start position;
  - `substring`, which clamps its arguments and swaps them when they are
    out of order;
  - `includes`;
  - `join`.
- The shared parts:
  - `Wrappers`: the Option type;
  - `Sql`: the server model above;
  - `Host`: the machine state above;
  - `Bench`: benchmark cases and the order of requests around the timer.
- `EnvFile`: the global `/INDEXES_ADDED=.*/g` rewrite of `.env`. It is
  shared by addIndexes.js (value "true") and setupDatabase.js (value
  "false").
- `SetupDatabase`, `AddIndexes`, `InsertRecord`, `QueryAdvanced`,
  `BasicQuery` and `UltimatePerformance`: one per script.

Where the code works step by step — loops that send statements, a loop
that builds a string, a loop that pushes results — the model is a method
with a loop. It is proved against a function of the inputs, and the
properties of that function are proved as lemmas. The text rewrites, the
record literal, the row mapping and the `reduce` are functions.

### Behaviour worth noting

The model states these as facts about the code:

- `compareQueries` does not isolate a failing case. The first rejected
  request throws out of the loop, and no later case runs
  (`QueryAdvanced.CompareQueries`).
- The fastest result is the **last** one with the least time, not the
  first. The reduce keeps `current` on a tie (`QueryAdvanced.FastestTie`).
- The loader does not restore autocommit and foreign-key checks when a
  batch fails. They are restored only on the success path
  (`InsertRecord.BulkLoad`).
- `expires_at` and `refresh_token_expires_at` are not strictly after
  `issued_at`: a lifetime draw of 0 makes them equal
  (`InsertRecord.ZeroLifetime`).
- `dropAllIndexes` does not skip an index it fails to drop. It re-throws,
  and the remaining drops are never sent (`UltimatePerformance.DropAllIndexes`).
- `createIndex` does not treat an existing name as a success. It re-throws
  (`UltimatePerformance.CreateIndexEffect`).
- The token lifetimes are not "up to a year", whatever the comments beside
  them say. An access token lives fewer than 365 * 24 days, and a refresh
  token fewer than 365 * 7 weeks (`InsertRecord.TokenWellFormed`).
- setupDatabase.js may find the table already there. It then keeps the
  table with all its indexes (CREATE TABLE IF NOT EXISTS), but still
  records `INDEXES_ADDED=false` (`SetupDatabase.ExistingTableKept`).

## Model

| member | source | states |
|---|---|---|
| Text.IndexOf | ultimate_performance_fixed.js:179-180 | `indexOf(p, from)` is -1 or a position at or after the clamped start where `p` occurs; no occurrence lies between the start and the result; -1 means there is none at all from the start on |
| Text.LastIndexOf | ultimate_performance_fixed.js:189 | `lastIndexOf(p, from)` is -1 or an occurrence at or before the clamped start, with no occurrence after it up to that start |
| Text.Includes | ultimate_performance_fixed.js:469 | `includes(p)` holds exactly when `p` occurs somewhere in the text |
| Text.SplitJoin | basicQueryOptimization.js:44-51 | splitting a `join(sep)` of strings on `sep` gives the strings back, provided the separator starts with two different characters and no string holds the second of them; for ` \| ` that means no string holds `\|` (how the written table lines are read back) |
| Sql.RunIssued | setupDatabase.js:19-61 | statements awaited in turn send a prefix of their plan, all of it on success; on failure the last statement sent was rejected after all those before it had been applied, and the catalog is theirs |
| Sql.RunAppend | insertRecord.js:121-189 | running two awaited sequences one after the other is running their concatenation, the second only if the first succeeded |
| Sql.RunAllAppend | ultimate_performance_fixed.js:103-110 | tolerated statements run as a concatenation have the effect of the two parts in turn |
| Sql.Server.Execute | ultimate_performance_fixed.js:105 | one awaited statement: the new catalog and the success are those of `Step`, and the statement is appended to the log |
| EnvFile.LineLength | setupDatabase.js:78 | what `.*` matches: the longest prefix without a JavaScript line terminator, ended by the text's end or a terminator |
| EnvFile.ReplaceAllMeaning | setupDatabase.js:78 | after the global replace every value following `INDEXES_ADDED=` is the new value, there are as many as before, and all text outside those values is unchanged |
| EnvFile.ReplaceAllIdempotent | addIndexes.js:73 | the global replace applied to its own output changes nothing |
| EnvFile.ReplaceAllNoKey | addIndexes.js:71-73 | a text without `INDEXES_ADDED=` is left exactly as it is |
| EnvFile.RewriteMeaning | setupDatabase.js:71-89 | the written `.env` always holds the key with every value equal to the new one; with the key present, the rest of the text and the number of settings are kept; with the key absent, the old text is kept verbatim in front of one new setting line |
| EnvFile.RewriteIdempotent | addIndexes.js:66-84 | writing `.env` twice with the same value gives what writing it once gives, whether the file was absent, lacked the key or had it |
| SetupDatabase.SetupDatabase | setupDatabase.js:6-102 | CREATE DATABASE and then CREATE TABLE, awaited in turn; on success the flag file is gone, `.env` is rewritten to false and the process variable is "false"; on a failure none of these change |
| SetupDatabase.SchemaShape | setupDatabase.js:41-53 | the table has ten columns in a fixed order, `id` first, and the primary key is `id` |
| SetupDatabase.FreshSetup | setupDatabase.js:19-61 | on a server without the table and without faults, setup succeeds, the database exists and the table has the fixed columns, the primary key on `id` and no secondary index |
| SetupDatabase.ExistingTableKept | setupDatabase.js:40-61 | an existing table is left exactly as it is, secondary indexes included |
| SetupDatabase.DatabaseFailureStops | setupDatabase.js:19-25 | a rejected CREATE DATABASE is the only statement sent and changes nothing; the table is never created |
| AddIndexes.AddPlanShape | addIndexes.js:22-56 | seven statements: the six single-column ones first, each exactly `ALTER TABLE oauth_tokens ADD INDEX <name> (<column>)`, then the compound `idx_user_token_type (user_id, token_type)` |
| AddIndexes.AddIndexes | addIndexes.js:6-97 | all seven statements are sent in order and every failure is tolerated; the flag file, `.env` (rewritten to true) and the process variable are set whatever the server answered |
| AddIndexes.RunAllAdds | addIndexes.js:31-56 | ADD INDEX statements on one table extend its catalog with each name that is still free and change nothing else |
| AddIndexes.PlanNamesDistinct | addIndexes.js:22-56 | the seven index names are pairwise different |
| AddIndexes.CleanTableIndexes | addIndexes.js:31-56 | on a table without secondary indexes and without faults, exactly the seven indexes are left, each on its columns, and no other table changes |
| AddIndexes.AddIndexesIdempotent | addIndexes.js:31-56 | without faults, a second run of addIndexes.js changes the catalog no further: every ADD INDEX then fails on a taken name and is only reported |
| AddIndexes.AddsTwice | addIndexes.js:31-43 | any tolerated run of ADD INDEX statements on one table, repeated, changes nothing more |
| InsertRecord.RandomString | insertRecord.js:18-25 | a string of the given draws has one character per draw, each from the 62-character alphabet |
| InsertRecord.GenerateRandomString | insertRecord.js:18-25 | the character-by-character loop builds exactly the alphabet characters the draws pick, in order |
| InsertRecord.GenerateRandomData | insertRecord.js:5-57 | the record built from the draws, which is well formed: user in [1,180], client in [1,18], type Bearer or Refresh, access token of length [40,80] and refresh token of [32,64] from the alphabet, expiry a whole number of days (under 365*24) and refresh expiry of weeks (under 365*7) after issue, revocation absent or 30 days after expiry |
| InsertRecord.TokenWellFormed | insertRecord.js:6-44 | every record generated from draws in range is well formed, as above |
| InsertRecord.TokenOnto | insertRecord.js:5-57 | the bounds are tight: every well-formed record is generated by some draws in range |
| InsertRecord.ZeroLifetime | insertRecord.js:37-38 | a lifetime draw of 0 gives `expires_at == issued_at`, so expiry is not strictly after issue |
| InsertRecord.RowFollowsColumns | insertRecord.js:61-79 | each row has 9 values, the k-th being the record's field for the k-th column of the INSERT list |
| InsertRecord.ColumnsMatchTable | insertRecord.js:62-65 | the INSERT column list is the table's columns after `id`, in the table's order |
| InsertRecord.RowRoundTrip | insertRecord.js:69-79 | the record can be read back from its row |
| InsertRecord.BatchInsert | insertRecord.js:60-87 | one INSERT of all the records' rows, in input order, awaited; its failure is the call's failure, and an empty record list fails |
| InsertRecord.TotalBatches | insertRecord.js:114 | the number of batches is `ceil(total / size)`: the least count whose batches hold every record |
| InsertRecord.BatchArith | insertRecord.js:141-154 | before each batch, `processedRecords` is `b * size`, below the total, and after it `min((b + 1) * size, total)`, so never above the total |
| InsertRecord.AllBatchesArith | insertRecord.js:139-154 | after the last batch `processedRecords` equals the total |
| InsertRecord.GenerateBatch | insertRecord.js:145-148 | the inner loop yields the records of the next `n` draws, in order |
| InsertRecord.LoadBatch | insertRecord.js:140-168 | one iteration sends the batch's INSERT, then a COMMIT when the batch index is a multiple of 10 or the last one, and continues the run exactly as the load plan prescribes |
| InsertRecord.AllRowsInserted | insertRecord.js:139-154 | the INSERTs of the load plan carry every record's row exactly once, in order |
| InsertRecord.BatchesSizes | insertRecord.js:139-142 | the load has `ceil(total / size)` INSERTs, batch k of `min(size, total - k * size)` records |
| InsertRecord.TwentyThreeRecords | insertRecord.js:114-142 | 23 records in batches of 10 make 3 batches, of 10, 10 and 3 records |
| InsertRecord.CommitSchedule | insertRecord.js:161-168 | no transaction of the loop holds more than 10 INSERTs, and no INSERT is left without a COMMIT after it when the loop ends |
| InsertRecord.CommitPositions | insertRecord.js:161-168 | INSERT k of the loop is followed at once by a COMMIT exactly when k is a multiple of 10 or k is the last batch |
| InsertRecord.ConfiguredBatches | insertRecord.js:112-114 | 5,000,000 records in batches of 10,000 make 500 batches |
| InsertRecord.LoadBatches | insertRecord.js:137-174 | the batch loop sends exactly the batches of the load plan, stopping at the first failure |
| InsertRecord.BulkLoad | insertRecord.js:110-199 | `main` once connected: the two settings, the batches and the two restoring settings, awaited in turn, with the first failure ending the script (the settings are then not restored) |
| QueryAdvanced.AnalyzeQuery | queryOptimizationAdvanced.js:17-36 | the requests made up to the first rejected one; a result exactly when both requests are answered, the time from `hrtime` in ms and the row count |
| QueryAdvanced.AnalyzeOrder | queryOptimizationAdvanced.js:23-30 | EXPLAIN is sent first and before the timer starts; the timer measures the query alone, with the same parameters, exactly when it is answered |
| QueryAdvanced.Answered | queryOptimizationAdvanced.js:42-55 | the number of leading cases answered in full: those are all answered, and the next is not |
| QueryAdvanced.FastestIndex | queryOptimizationAdvanced.js:62-64 | the reduce with strict `<` ends on a least time, and on the last of equal least times |
| QueryAdvanced.CompareQueries | queryOptimizationAdvanced.js:39-67 | one result per case, in input order, with the case's description, time and row count (a missing `params` runs with `[]`); the first rejected request ends the run; with no case the reduce throws; otherwise the fastest is the reduce's choice |
| QueryAdvanced.FastestIsACase | queryOptimizationAdvanced.js:62-66 | the reported fastest is one of the cases and its time is at most every case's time |
| QueryAdvanced.FastestExample | queryOptimizationAdvanced.js:62-64 | for times 12.4, 3.1 and 9.0 the second case is the fastest |
| QueryAdvanced.FastestTie | queryOptimizationAdvanced.js:62-64 | on a tie the later case is reported |
| BasicQuery.Get | basicQueryOptimization.js:51 | `row[col]` is `undefined` when the row has no such column |
| BasicQuery.GetFirst | basicQueryOptimization.js:51 | `row[col]` is the value of the column of that name |
| BasicQuery.DigitsRoundTrip | basicQueryOptimization.js:51 | `String(n)` for a natural number reads back as `n` |
| BasicQuery.Render | basicQueryOptimization.js:51 | `String(v \|\| '')` is empty exactly for a falsy value (null, undefined, false, 0, ""); a non-empty string renders as itself and a positive integer as its decimal digits |
| BasicQuery.ExplainLines | basicQueryOptimization.js:43-53 | there are lines exactly when EXPLAIN returned a row (`explainResults[0]` is needed), and then 2 + the number of rows |
| BasicQuery.HeaderLine | basicQueryOptimization.js:43-44 | read back, the header line is the first row's column names, whenever no column name holds `\|` |
| BasicQuery.RuleLine | basicQueryOptimization.js:45 | read back, the rule line holds one `----------` per column |
| BasicQuery.ValueLine | basicQueryOptimization.js:50-52 | read back, line 2 + k holds one cell per header column, and cell j is `String(v \|\| '')` of row k's value for header column j (in header order); so a cell is empty exactly for a falsy value, and a column the row lacks gives an empty cell; this holds whenever no cell holds `\|` (spaces, as in `Using where`, are allowed) |
| BasicQuery.SameColumns | basicQueryOptimization.js:50-51 | a row with the first row's columns shows each of its own values in place |
| BasicQuery.MeasureQuery | basicQueryOptimization.js:24-56 | the requests, the `{ executionTime, rowCount }` result exactly when the query is answered and EXPLAIN returned rows, and the table lines then written |
| BasicQuery.MeasureOrder | basicQueryOptimization.js:30-40 | the timer is started first and measures the query alone; EXPLAIN is sent after it stops; `analyzeQuery` times the same request |
| BasicQuery.ProjectionChoice | basicQueryOptimization.js:80-125 | query k starts with `SELECT user_id, token_type, client_id` exactly when `INDEXES_ADDED` is "true" and with `SELECT *` exactly when it is not; either way it ends with condition k and carries parameter k |
| BasicQuery.SameQueries | basicQueryOptimization.js:80-125 | two settings give the same query text exactly when both choose the same projection; the parameters never differ |
| BasicQuery.RunCases | basicQueryOptimization.js:74-131 | the cases run in order up to the first that does not complete, each completed one giving its measurement |
| BasicQuery.RunBasicQueryTests | basicQueryOptimization.js:71-131 | all four measurements are made exactly when every case completes |
| UltimatePerformance.Dedupe | ultimate_performance_fixed.js:49 | `[...new Set(names)]` holds the same names, each once |
| UltimatePerformance.DedupeOrder | ultimate_performance_fixed.js:49 | the names come in the order of their first appearance |
| UltimatePerformance.DedupeCompound | ultimate_performance_fixed.js:48-49 | a compound index listed once per column is dropped once |
| UltimatePerformance.DropPlan | ultimate_performance_fixed.js:39-57 | SHOW INDEX, then one `DROP INDEX <name> ON <table>` per distinct name in order; only SHOW INDEX when it lists no row |
| UltimatePerformance.DropAllIndexes | ultimate_performance_fixed.js:36-64 | the plan awaited in turn: any failure is re-thrown and no later drop is sent |
| UltimatePerformance.DropEach | ultimate_performance_fixed.js:53-57 | the drop loop sends each name's DROP INDEX in order up to the first failure |
| UltimatePerformance.DropsRemove | ultimate_performance_fixed.js:53-57 | dropping distinct existing indexes without faults removes exactly those names |
| UltimatePerformance.DropAllClears | ultimate_performance_fixed.js:36-64 | when SHOW INDEX lists the table's secondary indexes and nothing fails, the table is left with none and nothing else changes |
| UltimatePerformance.CreateIndex | ultimate_performance_fixed.js:67-79 | one awaited CREATE INDEX, its failure re-thrown |
| UltimatePerformance.CreateIndexEffect | ultimate_performance_fixed.js:69-72 | the statement is exactly `CREATE INDEX <name> ON <table> (<columns>)`; it succeeds exactly when not rejected, the table exists and the name is free, and then adds that index alone; a failure changes nothing |
| UltimatePerformance.OptimizeMySqlConfig | ultimate_performance_fixed.js:82-121 | every setting is sent in list order, a rejected one only reported, then ANALYZE TABLE, whose failure alone makes the result false |
| UltimatePerformance.SessionsKeepCatalog | ultimate_performance_fixed.js:103-110 | the settings leave the catalog unchanged, applied or not |
| UltimatePerformance.OptimizeOutcome | ultimate_performance_fixed.js:103-120 | `optimizeMySQLConfig` fails exactly when ANALYZE TABLE is rejected, and the catalog is unchanged |
| UltimatePerformance.FlagAt | ultimate_performance_fixed.js:472 | the match of `/INDEXES_ADDED=(true\|false)/` at a position: `...true` or `...false` with its length, or none |
| UltimatePerformance.FirstFlag | ultimate_performance_fixed.js:471-474 | where that expression first matches, with no match before it, or None when it matches nowhere |
| UltimatePerformance.UpdateEnvFileCases | ultimate_performance_fixed.js:462-488 | no file: exactly `INDEXES_ADDED=<v>\n`; key absent: `\nINDEXES_ADDED=<v>\n` appended; key present but followed by neither word: content unchanged |
| UltimatePerformance.UpdateEnvFileSets | ultimate_performance_fixed.js:469-486 | after the write, the first match of the expression is the new value and no match precedes it; with the key present, only the first `INDEXES_ADDED=true`/`false` is rewritten (a non-global replace): the text before it and everything after it, later matches included, are kept |
| UltimatePerformance.UpdateEnvFileIdempotent | ultimate_performance_fixed.js:462-488 | updating twice with the same value is updating once |
| UltimatePerformance.TransformTestScript | ultimate_performance_fixed.js:161-343 | a missing script gives false and nothing written; otherwise the backup holds the old script; on false the script is unchanged |
| UltimatePerformance.TransformSplice | ultimate_performance_fixed.js:179-332 | with both markers found, the new script is the text before the function, the header up to 6 characters past the first `try {`, the body, the footer from the last `} catch` up to the end marker, then the rest from the end marker on |
| UltimatePerformance.TransformNeedsMarkers | ultimate_performance_fixed.js:179-185 | the script is rewritten exactly when the start marker occurs at some position and the end marker occurs at or after it |
| UltimatePerformance.TransformKeeps | ultimate_performance_fixed.js:329-332 | the new script begins with the text before the function and ends with the text from the end marker on, so it still holds the marker |
| UltimatePerformance.HeaderWithoutTry | ultimate_performance_fixed.js:188 | with no `try {` after the function start, `substring` swaps its arguments and the header is the text from index 5 to the function start |
| UltimatePerformance.FooterWithoutCatch | ultimate_performance_fixed.js:189 | with no `} catch` before the end marker, the footer is all the text before the marker |

## Left out

- Randomness: `Math.random` is not modelled. Each `Math.floor(Math.random() * n)` is an integer draw in [0, n), given as data (`InsertRecord.Draws`); `Math.random() > 0.5` is a boolean draw.
- Time: the clock (`new Date()`) is the millisecond reading `now` among the draws. The `YYYY-MM-DD HH:MM:SS` text of `toISOString` is held as whole seconds; the string format itself is not modelled.
- Timing: `process.hrtime` readings are given per case. The elapsed time is computed in exact reals, so floating-point rounding and `toFixed` are left out. So is the `Math.round` progress percentage of insertRecord.js.
- The file system is reduced to the contents it leaves:
  - calls: `existsSync`, `readFileSync`, `writeFileSync`, `copyFileSync`, `unlinkSync`;
  - I/O errors are not modelled;
  - the flag file's timestamp text is not kept;
  - log streams and console output are left out.
- Connections: `createConnection`, `connect` and `end`, and their errors, are not modelled. Every script is modelled from the moment it is connected.
- Concurrency and pauses: the `setTimeout` pause in the loader is left out; each script is modelled as one sequence of awaited requests.
- SQL meaning: SQL beyond the index catalog is not modelled. This covers:
  - row storage and query results (given as row counts);
  - EXPLAIN contents (given as data);
  - the effect of session variables and SHOW TABLE STATUS.
- UltimatePerformance.DropAllIndexes: takes the Key_name column of the SHOW INDEX answer as a parameter. It does not derive that column from the catalog; `DropAllClears` states the case where the two agree.
- From ultimate_performance_fixed.js, not modelled:
  - `createOptimizedProcedures` and the stored-procedure text;
  - the main sequence of `applyUltimatePerformanceSolution`;
  - the optimized query body inside `transformTestScript`, which becomes the parameter `body`.
- queryOptimization.js is not part of this model: it only wraps hard-coded queries in `process.hrtime` timing.
- `require('dotenv').config()` is not modelled. The `INDEXES_ADDED` that basicQueryOptimization.js reads is a parameter.
- InsertRecord.BulkLoad: requires a positive batch size. The script's is the constant 10000, and with 0 its batch count would be infinite.
- BasicQuery.Render: numbers are integers only. The fractional `filtered` column (such as 33.33) and JavaScript's shortest decimal form of a fraction are not modelled, and neither are NaN and -0.
