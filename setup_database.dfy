/**
 * setupDatabase.js: create the database if needed, then the token table
 * without any secondary index, then remove the `.indexes_added` flag file,
 * set `INDEXES_ADDED=false` in `.env` and in the process environment. A
 * failure of either SQL statement is caught at the top and skips every later
 * step.
 */
module SetupDatabase {
  import opened Wrappers
  import Sql
  import Host
  import EnvFile

  const TableName: string := "oauth_tokens"

  /** The table's columns, in order, with their definitions as written. */
  const TokenColumns: seq<Sql.ColumnDef> := [
    Sql.ColumnDef("id", "BIGINT UNSIGNED AUTO_INCREMENT PRIMARY KEY"),
    Sql.ColumnDef("user_id", "INT UNSIGNED NOT NULL"),
    Sql.ColumnDef("client_id", "INT UNSIGNED NOT NULL"),
    Sql.ColumnDef("access_token", "VARCHAR(255) NOT NULL"),
    Sql.ColumnDef("token_type", "VARCHAR(20) NOT NULL"),
    Sql.ColumnDef("refresh_token", "VARCHAR(255) NOT NULL"),
    Sql.ColumnDef("issued_at", "DATETIME NOT NULL"),
    Sql.ColumnDef("revoked_at", "DATETIME NULL"),
    Sql.ColumnDef("expires_at", "DATETIME NOT NULL"),
    Sql.ColumnDef("refresh_token_expires_at", "DATETIME NOT NULL")
  ]

  function ColumnNames(cols: seq<Sql.ColumnDef>): seq<string> {
    seq(|cols|, i requires 0 <= i < |cols| => cols[i].name)
  }

  /** The two statements of the script, in order. */
  function SetupPlan(database: string): seq<Sql.Stmt> {
    [Sql.CreateDatabase(database), Sql.CreateTable(TableName, TokenColumns, "id")]
  }

  method SetupDatabase(server: Sql.Server, machine: Host.Machine, database: string) returns (ok: bool)
    modifies server, machine
    ensures var r := Sql.Run(old(server.db), SetupPlan(database), server.faults);
            server.db == r.db && server.log == old(server.log) + r.issued && ok == r.ok
    ensures ok ==> !machine.flagFile && machine.indexesAdded == Some("false") &&
                   machine.dotenv == Some(EnvFile.Rewrite(old(machine.dotenv), "false"))
    ensures !ok ==> machine.flagFile == old(machine.flagFile) &&
                    machine.dotenv == old(machine.dotenv) &&
                    machine.indexesAdded == old(machine.indexesAdded)
  {
    var create := Sql.CreateDatabase(database);
    var table := Sql.CreateTable(TableName, TokenColumns, "id");
    Sql.RunCons(server.db, create, [table], server.faults);
    ok := server.Execute(create);
    if !ok {
      return;
    }
    Sql.RunCons(server.db, table, [], server.faults);
    ok := server.Execute(table);
    if !ok {
      return;
    }
    if machine.flagFile {
      machine.flagFile := false;
    }
    machine.dotenv := Some(EnvFile.Rewrite(machine.dotenv, "false"));
    machine.indexesAdded := Some("false");
  }

  /** The table has ten columns in a fixed order; the first is `id`, the primary key. */
  lemma SchemaShape()
    ensures ColumnNames(TokenColumns) ==
            ["id", "user_id", "client_id", "access_token", "token_type", "refresh_token",
             "issued_at", "revoked_at", "expires_at", "refresh_token_expires_at"]
    ensures SetupPlan("d")[1].primaryKey == ColumnNames(TokenColumns)[0]
  {
  }

  /**
   * On a server without the table and without faults, setup succeeds, the
   * database exists and the table has the fixed columns, its primary key on
   * `id` and no secondary index.
   */
  lemma FreshSetup(db: Sql.Db, database: string, faults: set<Sql.Stmt>)
    requires TableName !in db.tables
    requires forall st :: st in SetupPlan(database) ==> st !in faults
    ensures var r := Sql.Run(db, SetupPlan(database), faults);
            r.ok && database in r.db.databases &&
            TableName in r.db.tables &&
            r.db.tables[TableName] == Sql.Table(TokenColumns, "id", map[])
  {
    var plan := SetupPlan(database);
    assert plan == [plan[0]] + [plan[1]];
    Sql.RunCons(db, plan[0], [plan[1]], faults);
    var db1 := Sql.Step(db, plan[0], faults).0;
    Sql.RunCons(db1, plan[1], [], faults);
  }

  /**
   * With the table already there, CREATE TABLE IF NOT EXISTS leaves it as it is,
   * secondary indexes included, although the script then records
   * `INDEXES_ADDED=false`.
   */
  lemma ExistingTableKept(db: Sql.Db, database: string, faults: set<Sql.Stmt>)
    requires TableName in db.tables
    requires forall st :: st in SetupPlan(database) ==> st !in faults
    ensures var r := Sql.Run(db, SetupPlan(database), faults);
            r.ok && r.db.tables == db.tables
  {
    var plan := SetupPlan(database);
    assert plan == [plan[0]] + [plan[1]];
    Sql.RunCons(db, plan[0], [plan[1]], faults);
    var db1 := Sql.Step(db, plan[0], faults).0;
    Sql.RunCons(db1, plan[1], [], faults);
  }

  /** A rejected CREATE DATABASE stops the script: the table is never created. */
  lemma DatabaseFailureStops(db: Sql.Db, database: string, faults: set<Sql.Stmt>)
    requires Sql.CreateDatabase(database) in faults
    ensures var r := Sql.Run(db, SetupPlan(database), faults);
            !r.ok && r.issued == [Sql.CreateDatabase(database)] && r.db == db
  {
    var plan := SetupPlan(database);
    assert plan == [plan[0]] + [plan[1]];
    Sql.RunCons(db, plan[0], [plan[1]], faults);
  }
}
