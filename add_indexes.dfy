/**
 * addIndexes.js: six single-column indexes and one compound index are added
 * to `oauth_tokens`, each failure only reported; then the flag file is
 * written, `.env` gets `INDEXES_ADDED=true` and so does the process.
 */
module AddIndexes {
  import opened Wrappers
  import Sql
  import Host
  import EnvFile
  import SetupDatabase

  datatype IndexSpec = IndexSpec(name: string, column: string)

  const SingleIndexes: seq<IndexSpec> := [
    IndexSpec("idx_user_id", "user_id"),
    IndexSpec("idx_client_id", "client_id"),
    IndexSpec("idx_token_type", "token_type"),
    IndexSpec("idx_access_token", "access_token"),
    IndexSpec("idx_refresh_token", "refresh_token"),
    IndexSpec("idx_expires_at", "expires_at")]

  const Compound: Sql.Stmt := Sql.AddIndex(SetupDatabase.TableName, "idx_user_token_type", "user_id, token_type")

  function AddStatement(spec: IndexSpec): Sql.Stmt {
    Sql.AddIndex(SetupDatabase.TableName, spec.name, spec.column)
  }

  function SingleStatements(): (ss: seq<Sql.Stmt>)
    ensures |ss| == |SingleIndexes|
  {
    seq(|SingleIndexes|, i requires 0 <= i < |SingleIndexes| => AddStatement(SingleIndexes[i]))
  }

  /** Every statement addIndexes.js sends, in order. */
  function AddPlan(): seq<Sql.Stmt> {
    SingleStatements() + [Compound]
  }

  /**
   * The six single-column statements come first, each `ALTER TABLE
   * oauth_tokens ADD INDEX <name> (<column>)`, then the compound one.
   */
  lemma AddPlanShape()
    ensures |AddPlan()| == 7 && AddPlan()[6] == Compound
    ensures Compound == Sql.AddIndex("oauth_tokens", "idx_user_token_type", "user_id, token_type")
    ensures forall i :: 0 <= i < 6 ==>
              Sql.Render(AddPlan()[i]) ==
                "ALTER TABLE " + SetupDatabase.TableName + " ADD INDEX " + SingleIndexes[i].name + " (" + SingleIndexes[i].column + ")"
  {
  }

  /**
   * `addIndexes()`. Every statement is sent and none of their failures stops
   * the script, so the flag file, `.env` and the process variable are set
   * whatever the server answered.
   */
  method AddIndexes(server: Sql.Server, machine: Host.Machine)
    modifies server, machine
    ensures server.db == Sql.RunAll(old(server.db), AddPlan(), server.faults)
    ensures server.log == old(server.log) + AddPlan()
    ensures machine.flagFile && machine.indexesAdded == Some("true")
    ensures machine.dotenv == Some(EnvFile.Rewrite(old(machine.dotenv), "true"))
  {
    var singles := SingleStatements();
    ghost var db0, log0 := server.db, server.log;
    for i := 0 to |singles|
      invariant server.db == Sql.RunAll(db0, singles[..i], server.faults)
      invariant server.log == log0 + singles[..i]
      invariant machine.dotenv == old(machine.dotenv)
    {
      var added := server.Execute(singles[i]);
      Sql.RunAllAppend(db0, singles[..i], [singles[i]], server.faults);
      assert singles[..i + 1] == singles[..i] + [singles[i]];
      assert Sql.RunAll(Sql.Step(server.db, singles[i], server.faults).0, [], server.faults) ==
             Sql.Step(server.db, singles[i], server.faults).0;
    }
    assert singles[..|singles|] == singles;
    var added := server.Execute(Compound);
    Sql.RunAllAppend(db0, singles, [Compound], server.faults);
    machine.flagFile := true;
    machine.dotenv := Some(EnvFile.Rewrite(machine.dotenv, "true"));
    machine.indexesAdded := Some("true");
  }

  // ------------------------------------------------------------ the catalog

  /** ADD INDEX statements on `table`, none of them rejected by a fault. */
  predicate AddsOn(plan: seq<Sql.Stmt>, table: string, faults: set<Sql.Stmt>) {
    forall i :: 0 <= i < |plan| ==> plan[i].AddIndex? && plan[i].table == table && plan[i] !in faults
  }

  /** The catalog `c` once each index of `plan` whose name is free has been added. */
  function Extend(c: Sql.Catalog, plan: seq<Sql.Stmt>): Sql.Catalog
    requires forall i :: 0 <= i < |plan| ==> plan[i].AddIndex?
    decreases |plan|
  {
    if plan == [] then c
    else
      var st := plan[0];
      Extend(if st.name in c then c else c[st.name := st.columns], plan[1..])
  }

  /**
   * A tolerant run of ADD INDEX statements on one existing table: the
   * table's catalog is extended, nothing else changes.
   */
  lemma {:induction false} RunAllAdds(db: Sql.Db, table: string, plan: seq<Sql.Stmt>, faults: set<Sql.Stmt>)
    requires table in db.tables && AddsOn(plan, table, faults)
    ensures Sql.RunAll(db, plan, faults) == Sql.WithIndexes(db, table, Extend(db.tables[table].indexes, plan))
    decreases |plan|
  {
    var c := db.tables[table].indexes;
    if plan == [] {
      assert Sql.WithIndexes(db, table, c) == db;
    } else {
      var st := plan[0];
      var c' := if st.name in c then c else c[st.name := st.columns];
      var db' := Sql.Step(db, st, faults).0;
      assert db' == Sql.WithIndexes(db, table, c');
      assert AddsOn(plan[1..], table, faults) by {
        forall i | 0 <= i < |plan[1..]| ensures plan[1..][i] == plan[i + 1] { }
      }
      RunAllAdds(db', table, plan[1..], faults);
      assert Sql.WithIndexes(Sql.WithIndexes(db, table, c'), table, Extend(c', plan[1..])) ==
             Sql.WithIndexes(db, table, Extend(c', plan[1..]));
    }
  }

  /** After extending, every name of the plan is in the catalog, and nothing was lost. */
  lemma {:induction false} ExtendContains(c: Sql.Catalog, plan: seq<Sql.Stmt>)
    requires forall i :: 0 <= i < |plan| ==> plan[i].AddIndex?
    ensures forall n :: n in c ==> n in Extend(c, plan) && Extend(c, plan)[n] == c[n]
    ensures forall i :: 0 <= i < |plan| ==> plan[i].name in Extend(c, plan)
    decreases |plan|
  {
    if plan != [] {
      var st := plan[0];
      var c' := if st.name in c then c else c[st.name := st.columns];
      ExtendContains(c', plan[1..]);
      forall i | 1 <= i < |plan| ensures plan[i].name in Extend(c, plan) {
        assert plan[1..][i - 1] == plan[i];
      }
    }
  }

  /** Adding indexes whose names are all taken changes nothing. */
  lemma {:induction false} ExtendTaken(c: Sql.Catalog, plan: seq<Sql.Stmt>)
    requires forall i :: 0 <= i < |plan| ==> plan[i].AddIndex? && plan[i].name in c
    ensures Extend(c, plan) == c
    decreases |plan|
  {
    if plan != [] {
      ExtendTaken(c, plan[1..]);
    }
  }

  /**
   * Extending by indexes with distinct names, none of them taken: each is
   * added on its columns, what was there stays, and nothing else appears.
   */
  lemma {:induction false} ExtendFresh(c: Sql.Catalog, plan: seq<Sql.Stmt>)
    requires forall i :: 0 <= i < |plan| ==> plan[i].AddIndex? && plan[i].name !in c
    requires forall i, j :: 0 <= i < j < |plan| ==> plan[i].name != plan[j].name
    ensures forall n :: n in c ==> n in Extend(c, plan) && Extend(c, plan)[n] == c[n]
    ensures forall i :: 0 <= i < |plan| ==>
              plan[i].name in Extend(c, plan) && Extend(c, plan)[plan[i].name] == plan[i].columns
    ensures forall n :: n in Extend(c, plan) ==> n in c || exists i :: 0 <= i < |plan| && plan[i].name == n
    decreases |plan|
  {
    if plan != [] {
      var st := plan[0];
      var c' := c[st.name := st.columns];
      var rest := plan[1..];
      assert forall i :: 0 <= i < |rest| ==> rest[i] == plan[i + 1];
      ExtendFresh(c', rest);
      forall n | n in Extend(c, plan)
        ensures n in c || exists i :: 0 <= i < |plan| && plan[i].name == n
      {
        if n !in c' {
          var i :| 0 <= i < |rest| && rest[i].name == n;
          assert plan[i + 1].name == n;
        } else if n == st.name {
          assert plan[0].name == n;
        }
      }
    }
  }

  /** The index names addIndexes.js uses are all different. */
  lemma PlanNamesDistinct()
    ensures forall i, j :: 0 <= i < j < |AddPlan()| ==> AddPlan()[i].name != AddPlan()[j].name
  {
    var plan := AddPlan();
    assert plan[0].name == "idx_user_id" && plan[1].name == "idx_client_id";
    assert plan[2].name == "idx_token_type" && plan[3].name == "idx_access_token";
    assert plan[4].name == "idx_refresh_token" && plan[5].name == "idx_expires_at";
    assert plan[6].name == "idx_user_token_type";
    assert plan[0].name[4] == 'u' && plan[1].name[4] == 'c' && plan[2].name[4] == 't';
    assert plan[3].name[4] == 'a' && plan[4].name[4] == 'r' && plan[5].name[4] == 'e';
    assert |plan[0].name| == 11 && |plan[6].name| == 19;
  }

  /**
   * On a table with no secondary index and no fault, addIndexes.js leaves
   * exactly its seven indexes, each on its columns, and changes no other table.
   */
  lemma CleanTableIndexes(db: Sql.Db, faults: set<Sql.Stmt>)
    requires SetupDatabase.TableName in db.tables && db.tables[SetupDatabase.TableName].indexes == map[]
    requires forall st :: st in AddPlan() ==> st !in faults
    ensures var cat := Extend(map[], AddPlan());
            Sql.RunAll(db, AddPlan(), faults) == Sql.WithIndexes(db, SetupDatabase.TableName, cat) &&
            (forall i :: 0 <= i < |AddPlan()| ==> AddPlan()[i].name in cat && cat[AddPlan()[i].name] == AddPlan()[i].columns) &&
            (forall n :: n in cat ==> exists i :: 0 <= i < |AddPlan()| && AddPlan()[i].name == n)
  {
    var plan := AddPlan();
    assert AddsOn(plan, SetupDatabase.TableName, faults) by {
      forall i | 0 <= i < |plan| ensures plan[i] in plan { }
    }
    RunAllAdds(db, SetupDatabase.TableName, plan, faults);
    PlanNamesDistinct();
    ExtendFresh(map[], plan);
  }

  /**
   * Without faults, running addIndexes.js a second time changes nothing:
   * every name is then taken, so every ADD INDEX fails and is only reported.
   */
  lemma AddIndexesIdempotent(db: Sql.Db, faults: set<Sql.Stmt>)
    requires SetupDatabase.TableName in db.tables
    requires forall st :: st in AddPlan() ==> st !in faults
    ensures var once := Sql.RunAll(db, AddPlan(), faults);
            Sql.RunAll(once, AddPlan(), faults) == once
  {
    var plan := AddPlan();
    assert AddsOn(plan, SetupDatabase.TableName, faults) by {
      forall i | 0 <= i < |plan| ensures plan[i] in plan { }
    }
    AddsTwice(db, SetupDatabase.TableName, plan, faults);
  }

  /** A tolerant run of ADD INDEX statements on one table, repeated, changes nothing more. */
  lemma AddsTwice(db: Sql.Db, t: string, plan: seq<Sql.Stmt>, faults: set<Sql.Stmt>)
    requires t in db.tables && AddsOn(plan, t, faults)
    ensures var once := Sql.RunAll(db, plan, faults);
            Sql.RunAll(once, plan, faults) == once
  {
    RunAllAdds(db, t, plan, faults);
    var once := Sql.RunAll(db, plan, faults);
    var c := Extend(db.tables[t].indexes, plan);
    ExtendContains(db.tables[t].indexes, plan);
    assert once.tables[t].indexes == c;
    RunAllAdds(once, t, plan, faults);
    ExtendTaken(c, plan);
    assert Sql.WithIndexes(once, t, c) == once;
  }
}
