/**
 * The MySQL server as the scripts see it: the statements they issue, an
 * abstract catalog of databases, tables and secondary indexes, and what each
 * statement does to it. Query results, the planner and row storage are not
 * modelled: a statement either succeeds (and may change the catalog) or fails.
 *
 * A statement fails for a reason the catalog explains (a duplicate index name,
 * a missing index or table) or because it is in the server's fixed set of
 * `faults` (connection loss, missing privileges, a setting the server does not
 * know): the environment's answers, given as data.
 */
module Sql {
  import Text

  /** A DATETIME is held as whole seconds since 1970-01-01T00:00:00Z. */
  datatype SqlValue = NullValue | IntValue(i: int) | TextValue(s: string) | TimeValue(seconds: int)

  /** A column of CREATE TABLE: its name and the rest of its definition, as written. */
  datatype ColumnDef = ColumnDef(name: string, definition: string)

  /** The secondary indexes of one table: index name -> column list as written in the DDL. */
  type Catalog = map<string, string>

  datatype Table = Table(columns: seq<ColumnDef>, primaryKey: string, indexes: Catalog)

  /** The databases on the server and the tables of the configured database. */
  datatype Db = Db(databases: set<string>, tables: map<string, Table>)

  datatype Stmt =
    | CreateDatabase(name: string)                                     // IF NOT EXISTS
    | CreateTable(table: string, definitions: seq<ColumnDef>, primaryKey: string)  // IF NOT EXISTS
    | AddIndex(table: string, name: string, columns: string)            // ALTER TABLE ... ADD INDEX
    | CreateIndex(name: string, table: string, columns: string)
    | DropIndex(name: string, table: string)
    | ShowIndex(table: string)                                         // non-primary indexes only
    | Insert(table: string, insertColumns: seq<string>, rows: seq<seq<SqlValue>>)
    | Session(text: string)                                            // SET, COMMIT, ANALYZE TABLE

  /** A request made through the promise-based connection of the benchmark scripts. */
  datatype Request = Execute(text: string, params: seq<SqlValue>) | StartTimer | StopTimer

  /** The SQL text of a statement. */
  function Render(st: Stmt): string {
    match st
    case CreateDatabase(n) => "CREATE DATABASE IF NOT EXISTS " + n
    case CreateTable(t, cols, _) =>
      "CREATE TABLE IF NOT EXISTS " + t + " (" + Text.Join(ColumnTexts(cols), ", ") + ") ENGINE=InnoDB"
    case AddIndex(t, n, c) => "ALTER TABLE " + t + " ADD INDEX " + n + " (" + c + ")"
    case CreateIndex(n, t, c) => "CREATE INDEX " + n + " ON " + t + " (" + c + ")"
    case DropIndex(n, t) => "DROP INDEX " + n + " ON " + t
    case ShowIndex(t) => "SHOW INDEX FROM " + t + " WHERE Key_name != 'PRIMARY'"
    case Insert(t, cols, _) => "INSERT INTO " + t + " (" + Text.Join(cols, ", ") + ") VALUES ?"
    case Session(text) => text
  }

  function ColumnTexts(cols: seq<ColumnDef>): seq<string> {
    seq(|cols|, i requires 0 <= i < |cols| => cols[i].name + " " + cols[i].definition)
  }

  function WithIndexes(db: Db, t: string, c: Catalog): Db
    requires t in db.tables
  {
    db.(tables := db.tables[t := db.tables[t].(indexes := c)])
  }

  /** Adding an index fails when the table is missing or the name is taken. */
  function AddIndexTo(db: Db, t: string, n: string, c: string): (Db, bool) {
    if t in db.tables && n !in db.tables[t].indexes
    then (WithIndexes(db, t, db.tables[t].indexes[n := c]), true)
    else (db, false)
  }

  /** The effect of one statement: the new catalog and whether the statement succeeded. */
  function Step(db: Db, st: Stmt, faults: set<Stmt>): (Db, bool) {
    if st in faults then (db, false)
    else match st
      case CreateDatabase(n) => (db.(databases := db.databases + {n}), true)
      case CreateTable(t, cols, pk) =>
        if t in db.tables then (db, true)
        else (db.(tables := db.tables[t := Table(cols, pk, map[])]), true)
      case AddIndex(t, n, c) => AddIndexTo(db, t, n, c)
      case CreateIndex(n, t, c) => AddIndexTo(db, t, n, c)
      case DropIndex(n, t) =>
        if t in db.tables && n in db.tables[t].indexes
        then (WithIndexes(db, t, db.tables[t].indexes - {n}), true)
        else (db, false)
      case ShowIndex(t) => (db, t in db.tables)
      case Insert(t, _, rows) => (db, t in db.tables && rows != [])  // `VALUES ?` of [] is a syntax error
      case Session(_) => (db, true)
  }

  /** The result of a sequence of statements: final catalog, statements sent, success. */
  datatype Outcome = Outcome(db: Db, issued: seq<Stmt>, ok: bool)

  function Prepend(done: seq<Stmt>, r: Outcome): Outcome {
    r.(issued := done + r.issued)
  }

  /**
   * Statements awaited one after another where the first failure is thrown:
   * the failing statement has been sent, nothing after it is.
   */
  function Run(db: Db, plan: seq<Stmt>, faults: set<Stmt>): Outcome
    decreases |plan|
  {
    if plan == [] then Outcome(db, [], true)
    else
      var (db', ok) := Step(db, plan[0], faults);
      if !ok then Outcome(db', [plan[0]], false)
      else Prepend([plan[0]], Run(db', plan[1..], faults))
  }

  /**
   * A run sends a prefix of its plan: all of it when it succeeds, and up to
   * and including the statement that failed otherwise; that statement was
   * rejected once every statement before it had been applied.
   */
  lemma {:induction false} RunIssued(db: Db, plan: seq<Stmt>, faults: set<Stmt>)
    ensures var r := Run(db, plan, faults);
            r.issued <= plan && (r.ok ==> r.issued == plan) && r.db == RunAll(db, r.issued, faults) &&
            (!r.ok ==> |r.issued| > 0 && !Step(RunAll(db, r.issued[..|r.issued| - 1], faults), r.issued[|r.issued| - 1], faults).1)
    decreases |plan|
  {
    if plan != [] {
      var st := plan[0];
      var (db', ok) := Step(db, st, faults);
      RunAllCons(db, st, [], faults);
      if ok {
        RunIssued(db', plan[1..], faults);
        assert plan == [st] + plan[1..];
        IssuedCons(db, st, plan[1..], faults, db', Run(db', plan[1..], faults));
      }
    }
  }

  /** The step of `RunIssued` for a statement that succeeded, the rest of the run being `r`. */
  lemma IssuedCons(db: Db, st: Stmt, rest: seq<Stmt>, faults: set<Stmt>, db': Db, r: Outcome)
    requires Step(db, st, faults) == (db', true)
    requires r.issued <= rest && (r.ok ==> r.issued == rest) && r.db == RunAll(db', r.issued, faults)
    requires !r.ok ==> |r.issued| > 0 && !Step(RunAll(db', r.issued[..|r.issued| - 1], faults), r.issued[|r.issued| - 1], faults).1
    ensures var r' := Prepend([st], r);
            r'.issued <= [st] + rest && (r'.ok ==> r'.issued == [st] + rest) && r'.db == RunAll(db, r'.issued, faults) &&
            (!r'.ok ==> |r'.issued| > 0 && !Step(RunAll(db, r'.issued[..|r'.issued| - 1], faults), r'.issued[|r'.issued| - 1], faults).1)
  {
    var issued := [st] + r.issued;
    RunAllCons(db, st, r.issued, faults);
    if !r.ok {
      var k := |r.issued|;
      assert issued[..k] == [st] + r.issued[..k - 1];
      assert issued[k] == r.issued[k - 1];
      RunAllCons(db, st, r.issued[..k - 1], faults);
    }
  }

  lemma RunAllCons(db: Db, st: Stmt, rest: seq<Stmt>, faults: set<Stmt>)
    ensures RunAll(db, [st] + rest, faults) == RunAll(Step(db, st, faults).0, rest, faults)
  {
    assert ([st] + rest)[0] == st && ([st] + rest)[1..] == rest;
  }

  /** Statements whose failures are only reported: every one of them is sent. */
  function RunAll(db: Db, plan: seq<Stmt>, faults: set<Stmt>): Db
    decreases |plan|
  {
    if plan == [] then db else RunAll(Step(db, plan[0], faults).0, plan[1..], faults)
  }

  lemma ConcatAssoc(a: seq<Stmt>, b: seq<Stmt>, c: seq<Stmt>)
    ensures a + b + c == a + (b + c)
  {
  }

  /** One statement in front of the rest: it is sent, and the rest only if it succeeded. */
  lemma RunCons(db: Db, st: Stmt, rest: seq<Stmt>, faults: set<Stmt>)
    ensures Run(db, [st] + rest, faults) ==
            (var (db', ok) := Step(db, st, faults);
             if ok then Prepend([st], Run(db', rest, faults)) else Outcome(db', [st], false))
  {
    assert ([st] + rest)[0] == st;
    assert ([st] + rest)[1..] == rest;
  }

  lemma PrependPrepend(a: seq<Stmt>, b: seq<Stmt>, r: Outcome)
    ensures Prepend(a, Prepend(b, r)) == Prepend(a + b, r)
  {
    assert a + (b + r.issued) == (a + b) + r.issued;
  }

  /**
   * Sending the next statement of a run already under way, `done` being what
   * has been sent of it: it fails here, or the run carries on with the rest.
   */
  lemma RunNext(db: Db, st: Stmt, rest: seq<Stmt>, faults: set<Stmt>, done: seq<Stmt>)
    ensures var (db', ok) := Step(db, st, faults);
            Prepend(done, Run(db, [st] + rest, faults)) ==
            if ok then Prepend(done + [st], Run(db', rest, faults)) else Outcome(db', done + [st], false)
  {
    RunCons(db, st, rest, faults);
    var (db', ok) := Step(db, st, faults);
    if ok {
      PrependPrepend(done, [st], Run(db', rest, faults));
    }
  }

  /** Running two sequences one after the other is running their concatenation. */
  lemma {:induction false} RunAppend(db: Db, a: seq<Stmt>, b: seq<Stmt>, faults: set<Stmt>)
    ensures Run(db, a + b, faults) ==
            (var ra := Run(db, a, faults); if ra.ok then Prepend(a, Run(ra.db, b, faults)) else ra)
    decreases |a|
  {
    if a == [] {
      assert a + b == b;
    } else {
      assert (a + b)[0] == a[0];
      assert (a + b)[1..] == a[1..] + b;
      var (db', ok) := Step(db, a[0], faults);
      if ok {
        RunAppend(db', a[1..], b, faults);
        assert a == [a[0]] + a[1..];
      }
    }
  }

  lemma {:induction false} RunAllAppend(db: Db, a: seq<Stmt>, b: seq<Stmt>, faults: set<Stmt>)
    ensures RunAll(db, a + b, faults) == RunAll(RunAll(db, a, faults), b, faults)
    decreases |a|
  {
    if a == [] {
      assert a + b == b;
    } else {
      assert (a + b)[0] == a[0];
      assert (a + b)[1..] == a[1..] + b;
      RunAllAppend(Step(db, a[0], faults).0, a[1..], b, faults);
    }
  }

  /** The server connection: its catalog, every statement sent so far, and its faults. */
  class Server {
    var db: Db
    var log: seq<Stmt>
    const faults: set<Stmt>

    constructor (db: Db, faults: set<Stmt>)
      ensures this.db == db && log == [] && this.faults == faults
    {
      this.db := db;
      this.log := [];
      this.faults := faults;
    }

    /** Sends one statement and waits for its answer. */
    method Execute(st: Stmt) returns (ok: bool)
      modifies this
      ensures (db, ok) == Step(old(db), st, faults)
      ensures log == old(log) + [st]
    {
      var r := Step(db, st, faults);
      db, ok := r.0, r.1;
      log := log + [st];
    }

    /** `Execute` as the next statement of a run of which `done` has been sent. */
    method ExecuteNext(st: Stmt, ghost rest: seq<Stmt>, ghost done: seq<Stmt>) returns (ok: bool)
      modifies this
      ensures (db, ok) == Step(old(db), st, faults)
      ensures log == old(log) + [st]
      ensures Prepend(done, Run(old(db), [st] + rest, faults)) ==
              if ok then Prepend(done + [st], Run(db, rest, faults)) else Outcome(db, done + [st], false)
    {
      RunNext(db, st, rest, faults, done);
      ok := Execute(st);
    }
  }
}
