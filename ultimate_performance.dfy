/**
 * ultimate_performance_fixed.js: drop every secondary index of a table, create
 * indexes one by one, apply session settings whose failures are tolerated,
 * set `INDEXES_ADDED` in `.env` by a first-match replace, and splice a new
 * body into the benchmark script's test function.
 */
module UltimatePerformance {
  import opened Wrappers
  import Text
  import Sql
  import EnvFile
  import SetupDatabase

  // ------------------------------------------------------------ dropAllIndexes

  /** The position of the first occurrence of `x` in `xs`. */
  function FirstIndex(xs: seq<string>, x: string): (i: nat)
    requires x in xs
    ensures i < |xs| && xs[i] == x && forall j :: 0 <= j < i ==> xs[j] != x
  {
    if xs[0] == x then 0 else 1 + FirstIndex(xs[1..], x)
  }

  /**
   * `[...new Set(xs)]`: each value once, in order of first appearance.
   * SHOW INDEX gives one row per indexed column, so a compound index appears
   * once per column.
   */
  function Dedupe(xs: seq<string>): (r: seq<string>)
    ensures forall x :: x in r <==> x in xs
    ensures forall i, j :: 0 <= i < j < |r| ==> r[i] != r[j]
    decreases |xs|
  {
    if xs == [] then []
    else
      var init := xs[..|xs| - 1];
      var x := xs[|xs| - 1];
      assert xs == init + [x];
      var r := Dedupe(init);
      if x in r then r else r + [x]
  }

  lemma FirstIndexAppend(p: seq<string>, x: string, y: string)
    requires y in p
    ensures FirstIndex(p + [x], y) == FirstIndex(p, y)
  {
    var a, b := FirstIndex(p + [x], y), FirstIndex(p, y);
    assert (p + [x])[b] == y;
    assert a <= b;
    assert p[a] == y;
  }

  lemma FirstIndexLast(p: seq<string>, x: string)
    requires x !in p
    ensures FirstIndex(p + [x], x) == |p|
  {
  }

  /** The values of `r`, all taken from `xs`, are in the order of their first appearance there. */
  predicate FirstAppearanceOrder(xs: seq<string>, r: seq<string>)
    requires forall y :: y in r ==> y in xs
  {
    forall i, j :: 0 <= i < j < |r| ==> FirstIndex(xs, r[i]) < FirstIndex(xs, r[j])
  }

  /** The names come out in the order in which each first appears. */
  lemma {:induction false} DedupeOrder(xs: seq<string>)
    ensures FirstAppearanceOrder(xs, Dedupe(xs))
    decreases |xs|
  {
    if xs != [] {
      var init := xs[..|xs| - 1];
      var x := xs[|xs| - 1];
      assert xs == init + [x];
      DedupeOrder(init);
      var r' := Dedupe(init);
      var r := Dedupe(xs);
      assert FirstAppearanceOrder(init, r');
      forall i, j | 0 <= i < j < |r|
        ensures FirstIndex(xs, r[i]) < FirstIndex(xs, r[j])
      {
        assert r[i] == r'[i] && r'[i] in init;
        FirstIndexAppend(init, x, r[i]);
        if j < |r'| {
          assert r[j] == r'[j] && r'[j] in init;
          FirstIndexAppend(init, x, r[j]);
          assert FirstIndex(init, r'[i]) < FirstIndex(init, r'[j]);
        } else {
          assert r[j] == x && x !in init;
          FirstIndexLast(init, x);
        }
      }
    }
  }

  /** A compound index listed once per column is dropped once. */
  lemma DedupeCompound()
    ensures Dedupe(["idx_user_id", "idx_user_token_type", "idx_user_token_type"]) ==
            ["idx_user_id", "idx_user_token_type"]
  {
    var xs := ["idx_user_id", "idx_user_token_type", "idx_user_token_type"];
    var two := xs[..2];
    var one := two[..1];
    assert one == ["idx_user_id"] && one[..0] == [];
    assert Dedupe(one) == ["idx_user_id"];
    assert Dedupe(two) == ["idx_user_id", "idx_user_token_type"];
  }

  function DropStatements(names: seq<string>, table: string): seq<Sql.Stmt> {
    seq(|names|, i requires 0 <= i < |names| => Sql.DropIndex(names[i], table))
  }

  /**
   * What `dropAllIndexes` sends when SHOW INDEX answers with the key names
   * `keyNames`: the SHOW INDEX, then one DROP INDEX per distinct name.
   */
  function DropPlan(table: string, keyNames: seq<string>): (plan: seq<Sql.Stmt>)
    ensures |plan| == 1 + |Dedupe(keyNames)|
    ensures plan[0] == Sql.ShowIndex(table)
    ensures keyNames == [] ==> plan == [Sql.ShowIndex(table)]
    ensures forall k :: 1 <= k < |plan| ==> plan[k] == Sql.DropIndex(Dedupe(keyNames)[k - 1], table)
  {
    [Sql.ShowIndex(table)] + DropStatements(Dedupe(keyNames), table)
  }

  /**
   * `dropAllIndexes(connection, table)`, `keyNames` being the Key_name column
   * of the SHOW INDEX answer. A failure is re-thrown: `ok` is false and no
   * later statement is sent.
   */
  method DropAllIndexes(server: Sql.Server, table: string, keyNames: seq<string>) returns (ok: bool)
    modifies server
    ensures var r := Sql.Run(old(server.db), DropPlan(table, keyNames), server.faults);
            server.db == r.db && server.log == old(server.log) + r.issued && ok == r.ok
  {
    ghost var drops := DropStatements(Dedupe(keyNames), table);
    ghost var r := Sql.Run(server.db, DropPlan(table, keyNames), server.faults);
    assert DropPlan(table, keyNames) == [Sql.ShowIndex(table)] + drops;
    Sql.RunCons(server.db, Sql.ShowIndex(table), drops, server.faults);
    ok := server.Execute(Sql.ShowIndex(table));
    if !ok {
      return;
    }
    ghost var rest := Sql.Run(server.db, drops, server.faults);
    assert r == Sql.Prepend([Sql.ShowIndex(table)], rest);
    if |keyNames| == 0 {
      assert drops == [];
      return;
    }
    var names := Dedupe(keyNames);
    ok := DropEach(server, table, names);
  }

  /** The loop of `dropAllIndexes`: one DROP INDEX per name, stopping at the first failure. */
  method DropEach(server: Sql.Server, table: string, names: seq<string>) returns (ok: bool)
    modifies server
    ensures var r := Sql.Run(old(server.db), DropStatements(names, table), server.faults);
            server.db == r.db && server.log == old(server.log) + r.issued && ok == r.ok
  {
    ghost var drops := DropStatements(names, table);
    ghost var result := Sql.Run(server.db, drops, server.faults);
    ghost var log0 := server.log;
    ghost var sent := [];
    assert drops[0..] == drops;
    assert result == Sql.Prepend(sent, result);
    ok := true;
    for i := 0 to |names|
      invariant server.log == log0 + sent
      invariant result == Sql.Prepend(sent, Sql.Run(server.db, drops[i..], server.faults))
    {
      var st := Sql.DropIndex(names[i], table);
      assert drops[i..] == [st] + drops[i + 1..];
      ok := server.ExecuteNext(st, drops[i + 1..], sent);
      sent := sent + [st];
      if !ok {
        return;
      }
    }
    assert sent + [] == sent;
  }

  /** Dropping distinct indexes that all exist, with no faults: each is removed. */
  lemma {:induction false} DropsRemove(db: Sql.Db, table: string, names: seq<string>, faults: set<Sql.Stmt>)
    requires table in db.tables
    requires forall i :: 0 <= i < |names| ==> names[i] in db.tables[table].indexes
    requires forall i, j :: 0 <= i < j < |names| ==> names[i] != names[j]
    requires forall i :: 0 <= i < |names| ==> Sql.DropIndex(names[i], table) !in faults
    ensures Sql.Run(db, DropStatements(names, table), faults) ==
            Sql.Outcome(Sql.WithIndexes(db, table, (db.tables[table].indexes - set n | n in names)),
                        DropStatements(names, table), true)
    decreases |names|
  {
    var c := db.tables[table].indexes;
    if names == [] {
      assert (c - set n | n in names) == c;
      assert Sql.WithIndexes(db, table, c) == db;
    } else {
      var st := Sql.DropIndex(names[0], table);
      var db' := Sql.WithIndexes(db, table, c - {names[0]});
      assert Sql.Step(db, st, faults) == (db', true);
      var rest := names[1..];
      forall i | 0 <= i < |rest| ensures rest[i] in db'.tables[table].indexes {
        assert rest[i] == names[i + 1];
      }
      forall i, j | 0 <= i < j < |rest| ensures rest[i] != rest[j] {
        assert rest[i] == names[i + 1] && rest[j] == names[j + 1];
      }
      forall i | 0 <= i < |rest| ensures Sql.DropIndex(rest[i], table) !in faults {
        assert rest[i] == names[i + 1];
      }
      DropsRemove(db', table, rest, faults);
      assert DropStatements(names, table) == [st] + DropStatements(rest, table);
      Sql.RunCons(db, st, DropStatements(rest, table), faults);
      assert (c - {names[0]}) - (set n | n in rest) == (c - set n | n in names);
    }
  }

  /**
   * When SHOW INDEX lists every secondary index of the table and nothing
   * fails, `dropAllIndexes` leaves the table without secondary indexes and
   * changes nothing else.
   */
  lemma DropAllClears(db: Sql.Db, table: string, keyNames: seq<string>, faults: set<Sql.Stmt>)
    requires table in db.tables
    requires forall n :: n in keyNames <==> n in db.tables[table].indexes
    requires forall k :: 0 <= k < |DropPlan(table, keyNames)| ==> DropPlan(table, keyNames)[k] !in faults
    ensures var r := Sql.Run(db, DropPlan(table, keyNames), faults);
            r.ok && r.issued == DropPlan(table, keyNames) &&
            r.db == Sql.WithIndexes(db, table, map[])
  {
    var names := Dedupe(keyNames);
    var c := db.tables[table].indexes;
    var show := Sql.ShowIndex(table);
    assert Sql.Step(db, show, faults) == (db, true) by {
      assert DropPlan(table, keyNames)[0] == show;
    }
    forall i | 0 <= i < |names| ensures Sql.DropIndex(names[i], table) !in faults {
      assert DropPlan(table, keyNames)[i + 1] == Sql.DropIndex(names[i], table);
    }
    DropsRemove(db, table, names, faults);
    Sql.RunCons(db, show, DropStatements(names, table), faults);
    assert (c - set n | n in names) == map[];
  }

  // ------------------------------------------------------------ createIndex

  /** `createIndex`: one CREATE INDEX, its failure re-thrown (`ok` false). */
  method CreateIndex(server: Sql.Server, table: string, indexName: string, columns: string) returns (ok: bool)
    modifies server
    ensures (server.db, ok) == Sql.Step(old(server.db), Sql.CreateIndex(indexName, table, columns), server.faults)
    ensures server.log == old(server.log) + [Sql.CreateIndex(indexName, table, columns)]
  {
    ok := server.Execute(Sql.CreateIndex(indexName, table, columns));
  }

  /**
   * CREATE INDEX succeeds exactly when it is not rejected, the table exists
   * and the name is free; it then adds that one index and changes nothing else.
   */
  lemma CreateIndexEffect(db: Sql.Db, table: string, indexName: string, columns: string, faults: set<Sql.Stmt>)
    ensures var st := Sql.CreateIndex(indexName, table, columns);
            var (db', ok) := Sql.Step(db, st, faults);
            Sql.Render(st) == "CREATE INDEX " + indexName + " ON " + table + " (" + columns + ")" &&
            (ok <==> st !in faults && table in db.tables && indexName !in db.tables[table].indexes) &&
            (ok ==> db'.databases == db.databases && db'.tables.Keys == db.tables.Keys &&
                    db'.tables[table].indexes == db.tables[table].indexes[indexName := columns] &&
                    db'.tables[table].columns == db.tables[table].columns &&
                    forall t :: t in db.tables && t != table ==> db'.tables[t] == db.tables[t]) &&
            (!ok ==> db' == db)
  {
  }

  // ------------------------------------------------------------ optimizeMySQLConfig

  const Optimizations: seq<string> := [
    "SET SESSION optimizer_switch='mrr=on,mrr_cost_based=off'",
    "SET SESSION optimizer_switch='batched_key_access=on'",
    "SET SESSION optimizer_switch='materialization=on'",
    "SET SESSION optimizer_switch='semijoin=on'",
    "SET SESSION optimizer_switch='partial_match_rowid_merge=on'",
    "SET SESSION join_buffer_size = 4194304",
    "SET SESSION sort_buffer_size = 8388608",
    "SET SESSION read_buffer_size = 2097152",
    "SET SESSION read_rnd_buffer_size = 4194304",
    "SET SESSION innodb_stats_persistent = 1",
    "SET SESSION innodb_stats_on_metadata = 0"]

  function Settings(): (ss: seq<Sql.Stmt>)
    ensures |ss| == |Optimizations|
  {
    seq(|Optimizations|, i requires 0 <= i < |Optimizations| => Sql.Session(Optimizations[i]))
  }

  const Analyze: Sql.Stmt := Sql.Session("ANALYZE TABLE " + SetupDatabase.TableName)

  /**
   * `optimizeMySQLConfig`: every setting is sent in order and a rejected one
   * is only reported; then ANALYZE TABLE, whose failure makes the result false.
   */
  method OptimizeMySqlConfig(server: Sql.Server) returns (ok: bool)
    modifies server
    ensures server.log == old(server.log) + Settings() + [Analyze]
    ensures (server.db, ok) == Sql.Step(Sql.RunAll(old(server.db), Settings(), server.faults), Analyze, server.faults)
  {
    var settings := Settings();
    ghost var db0, log0 := server.db, server.log;
    for i := 0 to |settings|
      invariant server.db == Sql.RunAll(db0, settings[..i], server.faults)
      invariant server.log == log0 + settings[..i]
    {
      var applied := server.Execute(settings[i]);
      Sql.RunAllAppend(db0, settings[..i], [settings[i]], server.faults);
      assert settings[..i + 1] == settings[..i] + [settings[i]];
      assert Sql.RunAll(Sql.Step(db0, settings[i], server.faults).0, [], server.faults) ==
             Sql.Step(db0, settings[i], server.faults).0;
    }
    assert settings[..|settings|] == settings;
    ok := server.Execute(Analyze);
  }

  predicate IsSession(st: Sql.Stmt) {
    st.Session?
  }

  /** Session statements leave the catalog as it is, whether they succeed or not. */
  lemma {:induction false} SessionsKeepCatalog(db: Sql.Db, ss: seq<Sql.Stmt>, faults: set<Sql.Stmt>)
    requires forall i :: 0 <= i < |ss| ==> IsSession(ss[i])
    ensures Sql.RunAll(db, ss, faults) == db
    decreases |ss|
  {
    if ss != [] {
      assert IsSession(ss[0]);
      SessionsKeepCatalog(db, ss[1..], faults);
    }
  }

  /**
   * Rejected settings never make `optimizeMySQLConfig` fail: it fails exactly
   * when ANALYZE TABLE is rejected, and the catalog is unchanged either way.
   */
  lemma OptimizeOutcome(db: Sql.Db, faults: set<Sql.Stmt>)
    ensures var (db', ok) := Sql.Step(Sql.RunAll(db, Settings(), faults), Analyze, faults);
            db' == db && (ok <==> Analyze !in faults)
  {
    var ss := Settings();
    assert forall i :: 0 <= i < |ss| ==> IsSession(ss[i]);
    SessionsKeepCatalog(db, ss, faults);
    SessionStep(db, Analyze, faults);
  }

  lemma SessionStep(db: Sql.Db, st: Sql.Stmt, faults: set<Sql.Stmt>)
    requires IsSession(st)
    ensures Sql.Step(db, st, faults) == (db, st !in faults)
  {
  }

  // ------------------------------------------------------------ updateEnvFile

  /** `${indexesAdded}` for a boolean. */
  function ValueText(b: bool): string {
    if b then "true" else "false"
  }

  /**
   * The length of the match of `/INDEXES_ADDED=(true|false)/` at `i`, 0 when
   * there is none there.
   */
  function FlagAt(s: string, i: int): (n: nat)
    ensures n == 0 || (n == |EnvFile.Key| + 4 && Text.MatchAt(s, EnvFile.Key + "true", i)) ||
                      (n == |EnvFile.Key| + 5 && Text.MatchAt(s, EnvFile.Key + "false", i))
    ensures n == 0 <==> !Text.MatchAt(s, EnvFile.Key + "true", i) && !Text.MatchAt(s, EnvFile.Key + "false", i)
  {
    if Text.MatchAt(s, EnvFile.Key + "true", i) then |EnvFile.Key| + 4
    else if Text.MatchAt(s, EnvFile.Key + "false", i) then |EnvFile.Key| + 5
    else 0
  }

  /** Where the regular expression first matches at or after `i`. */
  function FirstFlag(s: string, i: nat): (r: Option<nat>)
    requires i <= |s|
    ensures r.None? ==> forall j :: i <= j <= |s| ==> FlagAt(s, j) == 0
    ensures r.Some? ==> i <= r.value <= |s| && FlagAt(s, r.value) > 0 &&
                        forall j :: i <= j < r.value ==> FlagAt(s, j) == 0
    decreases |s| - i
  {
    if FlagAt(s, i) > 0 then Some(i)
    else if i == |s| then None
    else FirstFlag(s, i + 1)
  }

  /** `s.replace(/INDEXES_ADDED=(true|false)/, Key + v)`: the first match only. */
  function ReplaceFirstFlag(s: string, v: string): string {
    match FirstFlag(s, 0)
    case None => s
    case Some(i) => s[..i] + EnvFile.Key + v + s[i + FlagAt(s, i)..]
  }

  /** The new `.env` content `updateEnvFile(indexesAdded)` writes; None is a missing file. */
  function UpdateEnvFile(content: Option<string>, indexesAdded: bool): string {
    var v := ValueText(indexesAdded);
    match content
    case None => EnvFile.Key + v + "\n"
    case Some(c) =>
      if Text.Includes(c, EnvFile.Key) then ReplaceFirstFlag(c, v) else c + "\n" + EnvFile.Key + v + "\n"
  }

  /**
   * With no file the content is the setting alone; with the key absent the
   * setting is appended on a line of its own; with the key present but never
   * followed by `true` or `false` nothing changes.
   */
  lemma UpdateEnvFileCases(content: Option<string>, b: bool)
    ensures content.None? ==> UpdateEnvFile(content, b) == "INDEXES_ADDED=" + ValueText(b) + "\n"
    ensures content.Some? && !Text.Includes(content.value, "INDEXES_ADDED=") ==>
              UpdateEnvFile(content, b) == content.value + "\nINDEXES_ADDED=" + ValueText(b) + "\n"
    ensures content.Some? && Text.Includes(content.value, "INDEXES_ADDED=") &&
            (forall j :: 0 <= j <= |content.value| ==> FlagAt(content.value, j) == 0) ==>
              UpdateEnvFile(content, b) == content.value
  {
    if content.Some? && Text.Includes(content.value, EnvFile.Key) {
      var c := content.value;
      if FirstFlag(c, 0).Some? {
        assert FlagAt(c, FirstFlag(c, 0).value) > 0;
      }
    }
  }

  lemma MatchChar(s: string, p: string, j: int, k: int)
    requires Text.MatchAt(s, p, j) && j <= k < j + |p|
    ensures s[k] == p[k - j]
  {
    assert s[j..j + |p|][k - j] == s[k];
  }

  /** Each pattern starts with 'I', has no other 'I' and no line break. */
  lemma PatternChars(w: string, k: int)
    requires w == "true" || w == "false"
    requires 0 <= k < |EnvFile.Key + w|
    ensures (EnvFile.Key + w)[k] != '\n'
    ensures k > 0 ==> (EnvFile.Key + w)[k] != 'I'
  {
    var p := EnvFile.Key + w;
    if k < |EnvFile.Key| {
      assert p[k] == EnvFile.Key[k];
    } else {
      assert p[k] == w[k - |EnvFile.Key|];
    }
  }

  /** Text kept before a written 'I' holds no match that was not there. */
  lemma NoEarlierMatch(c: string, r: string, j: nat, m: nat, w: string)
    requires w == "true" || w == "false"
    requires j < m <= |c| && m < |r| && r[..m] == c[..m] && r[m] == 'I'
    requires !Text.MatchAt(c, EnvFile.Key + w, j)
    ensures !Text.MatchAt(r, EnvFile.Key + w, j)
  {
    var p := EnvFile.Key + w;
    if j + |p| <= m {
      forall k | j <= k < j + |p| ensures r[k] == c[k] {
        assert r[..m][k] == c[..m][k];
      }
      assert r[j..j + |p|] == c[j..j + |p|];
    } else if j + |p| <= |r| {
      PatternChars(w, m - j);
      assert r[j..j + |p|][m - j] == r[m];
    }
  }

  /** The first match at `m` replaced, nothing before `m` matches. */
  lemma NoEarlierFlag(c: string, r: string, j: nat, m: nat)
    requires j < m <= |c| && m < |r| && r[..m] == c[..m] && r[m] == 'I'
    requires FlagAt(c, j) == 0
    ensures FlagAt(r, j) == 0
  {
    NoEarlierMatch(c, r, j, m, "true");
    NoEarlierMatch(c, r, j, m, "false");
  }

  /** A text without the key, followed by a line break, holds no match. */
  lemma NoMatchBeforeBreak(c: string, j: nat, w: string)
    requires w == "true" || w == "false"
    requires !Text.Includes(c, EnvFile.Key) && j <= |c|
    ensures !Text.MatchAt(c + "\n", EnvFile.Key + w, j)
  {
    var key := EnvFile.Key;
    var s := c + "\n";
    var p := key + w;
    if j + |p| <= |c| {
      assert !Text.MatchAt(c, key, j);
      assert s[j..j + |key|] == c[j..j + |key|];
      assert p[..|key|] == key;
      assert s[j..j + |p|][..|key|] == s[j..j + |key|];
    } else if j + |p| <= |s| {
      PatternChars(w, |c| - j);
      assert s[j..j + |p|][|c| - j] == s[|c|] == '\n';
    }
  }

  lemma NoFlagBeforeBreak(c: string, j: nat)
    requires !Text.Includes(c, EnvFile.Key) && j <= |c|
    ensures FlagAt(c + "\n", j) == 0
  {
    NoMatchBeforeBreak(c, j, "true");
    NoMatchBeforeBreak(c, j, "false");
  }

  /** `Key + v` written at `m`, with no match before it: the first match is there. */
  lemma FlagIsFirst(r: string, m: nat, v: string)
    requires v == "true" || v == "false"
    requires Text.MatchAt(r, EnvFile.Key + v, m)
    requires forall j :: 0 <= j < m ==> FlagAt(r, j) == 0
    ensures FirstFlag(r, 0) == Some(m) && FlagAt(r, m) == |EnvFile.Key| + |v|
  {
    var key := EnvFile.Key;
    MatchChar(r, key + v, m, m + |key|);
    assert (key + "true")[|key|] == 't' && (key + "false")[|key|] == 'f';
    if Text.MatchAt(r, key + "true", m) && v == "false" {
      MatchChar(r, key + "true", m, m + |key|);
    }
    assert FlagAt(r, m) == |key| + |v|;
  }

  /** The value replacing the first match at `i`: no match before it. */
  lemma FlagReplaced(c: string, v: string, i: nat)
    requires v == "true" || v == "false"
    requires FirstFlag(c, 0) == Some(i)
    ensures var r := c[..i] + EnvFile.Key + v + c[i + FlagAt(c, i)..];
            Text.MatchAt(r, EnvFile.Key + v, i) && forall j :: 0 <= j < i ==> FlagAt(r, j) == 0
  {
    var key := EnvFile.Key;
    var p := key + v;
    var r := c[..i] + key + v + c[i + FlagAt(c, i)..];
    assert r == c[..i] + p + c[i + FlagAt(c, i)..];
    SpliceParts(c[..i], p, c[i + FlagAt(c, i)..]);
    EnvFile.KeyNoBreak();
    assert r[i] == p[0] == key[0];
    forall j | 0 <= j < i ensures FlagAt(r, j) == 0 {
      NoEarlierFlag(c, r, j, i);
    }
  }

  lemma SpliceParts(pre: string, p: string, suf: string)
    ensures var r := pre + p + suf;
            Text.MatchAt(r, p, |pre|) && r[..|pre|] == pre && (|p| > 0 ==> r[|pre|] == p[0])
  {
    var r := pre + p + suf;
    assert r[|pre|..|pre| + |p|] == p;
  }

  /** The value appended after a text without the key: no match before it. */
  lemma FlagAppended(c: string, v: string)
    requires v == "true" || v == "false"
    requires !Text.Includes(c, EnvFile.Key)
    ensures var r := c + "\n" + EnvFile.Key + v + "\n";
            Text.MatchAt(r, EnvFile.Key + v, |c| + 1) && forall j :: 0 <= j < |c| + 1 ==> FlagAt(r, j) == 0
  {
    var key := EnvFile.Key;
    var s := c + "\n";
    var r := s + key + v + "\n";
    var m := |s|;
    assert r == c + "\n" + key + v + "\n";
    assert r[m..m + |key + v|] == key + v;
    assert r[..m] == s;
    assert r[m] == 'I';
    forall j | 0 <= j < m ensures FlagAt(r, j) == 0 {
      NoFlagBeforeBreak(c, j);
      NoEarlierFlagWide(s, r, j, m);
    }
  }

  /** `NoEarlierFlag` where the unchanged text is all of `s`. */
  lemma NoEarlierFlagWide(s: string, r: string, j: nat, m: nat)
    requires j < m == |s| && m < |r| && r[..m] == s && r[m] == 'I'
    requires FlagAt(s, j) == 0
    ensures FlagAt(r, j) == 0
  {
    assert s[..m] == s;
    NoEarlierFlag(s, r, j, m);
  }

  /** Where the value lands, and that no match comes before it. */
  lemma FlagWritten(content: Option<string>, b: bool) returns (m: nat)
    requires content.Some? && Text.Includes(content.value, EnvFile.Key) ==> FirstFlag(content.value, 0).Some?
    ensures var r := UpdateEnvFile(content, b);
            Text.MatchAt(r, EnvFile.Key + ValueText(b), m) &&
            forall j :: 0 <= j < m ==> FlagAt(r, j) == 0
  {
    if content.None? {
      m := 0;
      FlagWrittenNew(b);
    } else if Text.Includes(content.value, EnvFile.Key) {
      m := FirstFlag(content.value, 0).value;
      FlagWrittenReplaced(content.value, b, m);
    } else {
      m := |content.value| + 1;
      FlagWrittenAppended(content.value, b);
    }
  }

  lemma FlagWrittenNew(b: bool)
    ensures Text.MatchAt(UpdateEnvFile(None, b), EnvFile.Key + ValueText(b), 0)
  {
    var p := EnvFile.Key + ValueText(b);
    assert UpdateEnvFile(None, b) == p + "\n";
    assert (p + "\n")[0..|p|] == p;
  }

  lemma FlagWrittenReplaced(c: string, b: bool, m: nat)
    requires Text.Includes(c, EnvFile.Key) && FirstFlag(c, 0) == Some(m)
    ensures var r := UpdateEnvFile(Some(c), b);
            Text.MatchAt(r, EnvFile.Key + ValueText(b), m) && forall j :: 0 <= j < m ==> FlagAt(r, j) == 0
  {
    var v := ValueText(b);
    assert UpdateEnvFile(Some(c), b) == c[..m] + EnvFile.Key + v + c[m + FlagAt(c, m)..];
    FlagReplaced(c, v, m);
  }

  lemma FlagWrittenAppended(c: string, b: bool)
    requires !Text.Includes(c, EnvFile.Key)
    ensures var r := UpdateEnvFile(Some(c), b);
            Text.MatchAt(r, EnvFile.Key + ValueText(b), |c| + 1) && forall j :: 0 <= j < |c| + 1 ==> FlagAt(r, j) == 0
  {
    var v := ValueText(b);
    assert UpdateEnvFile(Some(c), b) == c + "\n" + EnvFile.Key + v + "\n";
    FlagAppended(c, v);
  }

  /**
   * Where `updateEnvFile` sets a value, a later read with the same regular
   * expression finds that value first: the key present with a `true` or
   * `false` after it, the key absent, or no file. With the key present, only
   * the first match is rewritten: the text before it and the text after it
   * are kept, so a later `INDEXES_ADDED=true` or `=false` is left alone.
   */
  lemma UpdateEnvFileSets(content: Option<string>, b: bool)
    requires content.Some? && Text.Includes(content.value, EnvFile.Key) ==> FirstFlag(content.value, 0).Some?
    ensures var r := UpdateEnvFile(content, b);
            FirstFlag(r, 0).Some? && Text.MatchAt(r, EnvFile.Key + ValueText(b), FirstFlag(r, 0).value)
    ensures content.Some? && Text.Includes(content.value, EnvFile.Key) ==>
              var c, r := content.value, UpdateEnvFile(content, b);
              var m, n := FirstFlag(c, 0).value, |EnvFile.Key| + |ValueText(b)|;
              m + FlagAt(c, m) <= |c| && m + n <= |r| &&
              r[..m] == c[..m] && r[m + n..] == c[m + FlagAt(c, m)..]
  {
    var m := FlagWritten(content, b);
    FlagIsFirst(UpdateEnvFile(content, b), m, ValueText(b));
    if content.Some? && Text.Includes(content.value, EnvFile.Key) {
      ReplaceKeeps(content.value, ValueText(b));
    }
  }

  /** Replacing the first match keeps the text before it and the text after it. */
  lemma ReplaceKeeps(c: string, v: string)
    requires FirstFlag(c, 0).Some?
    ensures var r, m := ReplaceFirstFlag(c, v), FirstFlag(c, 0).value;
            m + FlagAt(c, m) <= |c| && m + |EnvFile.Key| + |v| <= |r| &&
            r[..m] == c[..m] && r[m + |EnvFile.Key| + |v|..] == c[m + FlagAt(c, m)..]
  {
    var i := FirstFlag(c, 0).value;
    FlagFits(c, i);
    SpliceKept(c, i, FlagAt(c, i), EnvFile.Key, v);
  }

  lemma FlagFits(c: string, i: nat)
    requires FlagAt(c, i) > 0
    ensures i + FlagAt(c, i) <= |c|
  {
  }

  lemma SpliceKept(c: string, i: nat, n: nat, key: string, v: string)
    requires i + n <= |c|
    ensures var r := c[..i] + key + v + c[i + n..];
            i + |key| + |v| <= |r| && r[..i] == c[..i] && r[i + |key| + |v|..] == c[i + n..]
  {
    var r := c[..i] + key + v + c[i + n..];
    assert r == c[..i] + (key + v) + c[i + n..];
  }

  /** A text whose first match already holds `v` is left as it is. */
  lemma ReplaceOwnFlag(r: string, m: nat, v: string)
    requires v == "true" || v == "false"
    requires Text.MatchAt(r, EnvFile.Key + v, m)
    requires FirstFlag(r, 0) == Some(m) && FlagAt(r, m) == |EnvFile.Key| + |v|
    ensures Text.Includes(r, EnvFile.Key) && ReplaceFirstFlag(r, v) == r
  {
    assert ReplaceFirstFlag(r, v) == r[..m] + EnvFile.Key + v + r[m + |EnvFile.Key| + |v|..];
    SpliceSame(r, m, EnvFile.Key, v);
  }

  lemma SpliceSame(r: string, m: nat, key: string, v: string)
    requires Text.MatchAt(r, key + v, m)
    ensures Text.MatchAt(r, key, m) && r[..m] + key + v + r[m + |key| + |v|..] == r
  {
    var n := m + |key| + |v|;
    assert r[m..n] == key + v;
    assert r[m..m + |key|] == r[m..n][..|key|];
    assert r == r[..m] + r[m..n] + r[n..];
  }

  /** Running `updateEnvFile` twice with the same value is running it once. */
  lemma UpdateEnvFileIdempotent(content: Option<string>, b: bool)
    ensures UpdateEnvFile(Some(UpdateEnvFile(content, b)), b) == UpdateEnvFile(content, b)
  {
    if content.Some? && Text.Includes(content.value, EnvFile.Key) && FirstFlag(content.value, 0).None? {
      UpdateEnvFileCases(content, b);
    } else {
      var r := UpdateEnvFile(content, b);
      var m := FlagWritten(content, b);
      FlagIsFirst(r, m, ValueText(b));
      ReplaceOwnFlag(r, m, ValueText(b));
    }
  }

  // ------------------------------------------------------------ transformTestScript

  const StartMarker: string := "async function runBasicQueryTests()"
  const EndMarker: string := "// Run the tests"

  /**
   * The test script after `transformTestScript`, the backup it made, and its
   * result. None stands for a missing file.
   */
  datatype Transformed = Transformed(script: Option<string>, backup: Option<string>, ok: bool)

  /**
   * `transformTestScript`, with the optimized function body (a fixed text of
   * the source) as the parameter `body`. The backup is written before the
   * markers are looked for.
   */
  function TransformTestScript(script: Option<string>, body: string): (r: Transformed)
    ensures script.None? ==> r == Transformed(None, None, false)
    ensures script.Some? ==> r.backup == script
    ensures !r.ok ==> r.script == script
  {
    match script
    case None => Transformed(None, None, false)
    case Some(content) =>
      var functionStart := Text.IndexOf(content, StartMarker, 0);
      var functionEnd := Text.IndexOf(content, EndMarker, functionStart);
      if functionStart == -1 || functionEnd == -1 then Transformed(script, script, false)
      else
        Transformed(Some(Text.Substring(content, 0, functionStart) +
                         Header(content, functionStart) + body + Footer(content, functionEnd) +
                         Text.Substring(content, functionEnd, |content|)),
                    script, true)
  }

  /** `content.substring(functionStart, content.indexOf('try {', functionStart) + 6)`. */
  function Header(content: string, functionStart: int): string {
    Text.Substring(content, functionStart, Text.IndexOf(content, "try {", functionStart) + 6)
  }

  /** `content.substring(content.lastIndexOf('} catch', functionEnd), functionEnd)`. */
  function Footer(content: string, functionEnd: int): string {
    Text.Substring(content, Text.LastIndexOf(content, "} catch", functionEnd), functionEnd)
  }

  /**
   * The script is rewritten exactly when it holds the start marker and the end
   * marker after it. The text before the function and the text from the end
   * marker on are kept verbatim; between them sit the header (from the
   * function start to one character past the first `try {` after it), the
   * body, and the footer (from the last `} catch` at or before the end marker
   * up to the marker).
   */
  lemma TransformSplice(content: string, body: string, fs: nat, fe: nat, t: nat, k: nat)
    requires Text.MatchAt(content, StartMarker, fs) && forall j :: 0 <= j < fs ==> !Text.MatchAt(content, StartMarker, j)
    requires fs <= fe && Text.MatchAt(content, EndMarker, fe) &&
             forall j :: fs <= j < fe ==> !Text.MatchAt(content, EndMarker, j)
    requires fs <= t && t + 6 <= |content| && Text.MatchAt(content, "try {", t) &&
             forall j :: fs <= j < t ==> !Text.MatchAt(content, "try {", j)
    requires k <= fe && Text.MatchAt(content, "} catch", k) &&
             forall j :: k < j <= fe ==> !Text.MatchAt(content, "} catch", j)
    ensures var r := TransformTestScript(Some(content), body);
            r.ok && r.backup == Some(content) &&
            r.script == Some(content[..fs] + content[fs..t + 6] + body + content[k..fe] + content[fe..])
  {
    assert Text.IndexOf(content, StartMarker, 0) == fs;
    assert Text.IndexOf(content, EndMarker, fs) == fe;
    assert Text.IndexOf(content, "try {", fs) == t;
    assert Text.LastIndexOf(content, "} catch", fe) == k;
    assert Text.Substring(content, 0, fs) == content[..fs];
    assert Header(content, fs) == content[fs..t + 6];
    assert Footer(content, fe) == content[k..fe];
    assert Text.Substring(content, fe, |content|) == content[fe..];
  }

  /**
   * The script is rewritten exactly when the start marker occurs somewhere
   * with an occurrence of the end marker at or after it.
   */
  lemma TransformNeedsMarkers(content: string, body: string)
    ensures var r := TransformTestScript(Some(content), body);
            r.ok <==> exists fs, fe :: fs <= fe && Text.MatchAt(content, StartMarker, fs) &&
                                   Text.MatchAt(content, EndMarker, fe)
  {
    var r := TransformTestScript(Some(content), body);
    var s0 := Text.IndexOf(content, StartMarker, 0);
    if r.ok {
      var e0 := Text.IndexOf(content, EndMarker, s0);
      assert s0 <= e0 && Text.MatchAt(content, StartMarker, s0) && Text.MatchAt(content, EndMarker, e0);
    } else {
      forall fs: int, fe: int | fs <= fe && Text.MatchAt(content, StartMarker, fs)
        ensures !Text.MatchAt(content, EndMarker, fe)
      {
        assert s0 != -1 && s0 <= fs;
        assert Text.IndexOf(content, EndMarker, s0) == -1;
      }
    }
  }

  /**
   * The rewritten script begins with the text before the function and ends
   * with the text from the end marker on, so it still holds the end marker.
   */
  lemma TransformKeeps(content: string, body: string)
    requires TransformTestScript(Some(content), body).ok
    ensures var fs := Text.IndexOf(content, StartMarker, 0);
            var fe := Text.IndexOf(content, EndMarker, fs);
            var out := TransformTestScript(Some(content), body).script.value;
            0 <= fs <= fe <= |content| && fs <= |out| - (|content| - fe) &&
            content[..fs] <= out && out[|out| - (|content| - fe)..] == content[fe..] &&
            Text.MatchAt(out, EndMarker, |out| - (|content| - fe))
  {
    var fs := Text.IndexOf(content, StartMarker, 0);
    var fe := Text.IndexOf(content, EndMarker, fs);
    assert 0 <= fs <= fe <= |content| && Text.MatchAt(content, EndMarker, fe);
    var out := Text.Substring(content, 0, fs) + Header(content, fs) + body + Footer(content, fe) +
               Text.Substring(content, fe, |content|);
    assert TransformTestScript(Some(content), body).script == Some(out);
    SpliceOf(content, fs, fe, Header(content, fs), body, Footer(content, fe), EndMarker);
  }

  /** The splice of `transformTestScript` for positions `fs <= fe`, the marker being at `fe`. */
  lemma SpliceOf(content: string, fs: int, fe: int, header: string, body: string, footer: string, marker: string)
    requires 0 <= fs <= fe <= |content| && Text.MatchAt(content, marker, fe)
    ensures var out := Text.Substring(content, 0, fs) + header + body + footer + Text.Substring(content, fe, |content|);
            fs <= |out| - (|content| - fe) &&
            content[..fs] <= out && out[|out| - (|content| - fe)..] == content[fe..] &&
            Text.MatchAt(out, marker, |out| - (|content| - fe))
  {
    assert Text.Substring(content, 0, fs) == content[..fs];
    assert Text.Substring(content, fe, |content|) == content[fe..];
    assert content[fe..][..|marker|] == content[fe..fe + |marker|];
    SpliceKeeps(content[..fs], header, body, footer, content[fe..], marker);
  }

  lemma SpliceKeeps(prefix: string, header: string, body: string, footer: string, suffix: string, marker: string)
    requires marker <= suffix
    ensures var out := prefix + header + body + footer + suffix;
            |out| - |suffix| >= |prefix| && prefix <= out && out[|out| - |suffix|..] == suffix &&
            Text.MatchAt(out, marker, |out| - |suffix|)
  {
    var middle := header + body + footer;
    var out := prefix + header + body + footer + suffix;
    assert out == prefix + middle + suffix;
    var n := |prefix| + |middle|;
    assert out[n..] == suffix;
    assert out[n..n + |marker|] == suffix[..|marker|];
  }

  /**
   * Without a `try {` after the function start the header is
   * `content.substring(functionStart, 5)`, which JavaScript swaps into the
   * text from index 5 to the function start.
   */
  lemma HeaderWithoutTry(content: string, fs: nat)
    requires Text.IndexOf(content, StartMarker, 0) == fs && fs >= 5
    requires Text.IndexOf(content, "try {", fs) == -1
    ensures Header(content, fs) == content[5..fs]
  {
  }

  /** Without a `} catch` at or before the end marker the footer is all the text before the marker. */
  lemma FooterWithoutCatch(content: string, fe: nat)
    requires fe <= |content| && Text.LastIndexOf(content, "} catch", fe) == -1
    ensures Footer(content, fe) == content[..fe]
  {
  }
}
