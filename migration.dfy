/** What the schema-update tool does to the database, as functions of the
    database state: applying one catalog entry, walking the catalog, and the
    version checks and confirmation gate that precede the walk. */
module SchemaUpdate {
  import opened UpdateCatalog

  /** A statement the tool sends to the database: a catalog statement (its text
      is opaque), or one of the two statements that rewrite `schema_info`. */
  datatype Statement = Query(text: string) | DeleteVersions | InsertVersion(version: int)

  /** The database as the tool sees it: every statement issued so far, in
      order (a failing one included), and the rows of `schema_info`. */
  datatype Db = Db(log: seq<Statement>, rows: seq<int>)

  /** Whether an operation succeeded, and the database state it left. */
  datatype Outcome = Outcome(ok: bool, db: Db)

  /** What a statement that succeeds does to the rows of `schema_info`;
      catalog statements are taken not to touch that table. */
  function RowsAfter(rows: seq<int>, s: Statement): seq<int> {
    match s
    case Query(_) => rows
    case DeleteVersions => []
    case InsertVersion(v) => rows + [v]
  }

  /** The catalog statements `stmts` as issued to the database. */
  function Queries(stmts: seq<string>): (r: seq<Statement>)
    ensures |r| == |stmts|
  {
    seq(|stmts|, j requires 0 <= j < |stmts| => Query(stmts[j]))
  }

  /** The index of the first statement of `stmts` that fails, or `|stmts|` if none does. */
  function FirstFailure(failing: set<Statement>, stmts: seq<string>): (k: nat)
    ensures k <= |stmts|
    ensures forall j :: 0 <= j < k ==> Query(stmts[j]) !in failing
    ensures k < |stmts| ==> Query(stmts[k]) in failing
  {
    if stmts == [] || Query(stmts[0]) in failing then 0
    else 1 + FirstFailure(failing, stmts[1..])
  }

  /** An entry applies cleanly in dialect `d`: none of its statements fails and
      neither does the rewrite of `schema_info`. */
  predicate EntrySucceeds(failing: set<Statement>, q: UpdateQuery, d: Dialect) {
    StatementsPass(failing, q, d)
    && DeleteVersions !in failing
    && InsertVersion(q.version) !in failing
  }

  /** None of the entry's statements for dialect `d` fails. */
  predicate StatementsPass(failing: set<Statement>, q: UpdateQuery, d: Dialect) {
    forall s :: s in StatementList(SlotsFor(q, d)) ==> Query(s) !in failing
  }

  /** Applying the entry gets as far as a successful DELETE on `schema_info`:
      the dialect is known and none of its statements fails, nor the DELETE. */
  predicate DeleteSucceeds(failing: set<Statement>, q: UpdateQuery, sqltype: string) {
    ParseDialect(sqltype).Some?
    && StatementsPass(failing, q, ParseDialect(sqltype).value)
    && DeleteVersions !in failing
  }

  /** The statements a clean application of `q` in dialect `d` issues. */
  function SuccessTrace(q: UpdateQuery, d: Dialect): seq<Statement> {
    Queries(StatementList(SlotsFor(q, d))) + [DeleteVersions, InsertVersion(q.version)]
  }

  /** Running the statements `stmts` in order, stopping at the first that fails. */
  function RunStatements(failing: set<Statement>, db: Db, stmts: seq<string>): (r: Outcome)
    ensures r.ok <==> FirstFailure(failing, stmts) == |stmts|
    ensures r.db.rows == db.rows && db.log <= r.db.log
  {
    var k := FirstFailure(failing, stmts);
    if k < |stmts| then Outcome(false, Db(db.log + Queries(stmts[..k + 1]), db.rows))
    else Outcome(true, Db(db.log + Queries(stmts), db.rows))
  }

  /** Replacing the rows of `schema_info` by the single row `version`: a DELETE
      of every row, then an INSERT, each issued only if the previous succeeded. */
  function RewriteVersion(failing: set<Statement>, db: Db, version: int): (r: Outcome)
    ensures r.ok <==> DeleteVersions !in failing && InsertVersion(version) !in failing
    ensures r.ok ==> r.db.rows == [version]
    ensures !r.ok ==> r.db.rows == db.rows || r.db.rows == []
  {
    if DeleteVersions in failing then
      Outcome(false, Db(db.log + [DeleteVersions], db.rows))
    else if InsertVersion(version) in failing then
      Outcome(false, Db(db.log + [DeleteVersions, InsertVersion(version)], []))
    else
      Outcome(true, Db(db.log + [DeleteVersions, InsertVersion(version)], [version]))
  }

  /** Applying one catalog entry under the configured SQL type: select the
      dialect's statements, run them in order up to the first failure, and only
      if all succeed replace the rows of `schema_info` by the entry's version. */
  function ApplyOutcome(failing: set<Statement>, db: Db, q: UpdateQuery, sqltype: string): Outcome {
    match ParseDialect(sqltype)
    case None => Outcome(false, db)
    case Some(d) =>
      var s := RunStatements(failing, db, StatementList(SlotsFor(q, d)));
      if !s.ok then s else RewriteVersion(failing, s.db, q.version)
  }

  /** With an unrecognised SQL type an entry fails and nothing is executed. */
  lemma ApplyUnknownDialect(failing: set<Statement>, db: Db, q: UpdateQuery, sqltype: string)
    requires ParseDialect(sqltype).None?
    ensures ApplyOutcome(failing, db, q, sqltype) == Outcome(false, db)
  {
  }

  /** An entry succeeds exactly when the dialect is known and none of its
      statements, nor the DELETE, nor the INSERT fails. */
  lemma ApplyOkIff(failing: set<Statement>, db: Db, q: UpdateQuery, sqltype: string)
    ensures ApplyOutcome(failing, db, q, sqltype).ok
            <==> ParseDialect(sqltype).Some? && EntrySucceeds(failing, q, ParseDialect(sqltype).value)
  {
  }

  /** A successful entry has issued its statements, then the DELETE and the
      INSERT, and `schema_info` holds exactly one row: the entry's version. */
  lemma ApplySucceeds(failing: set<Statement>, db: Db, q: UpdateQuery, sqltype: string)
    requires ApplyOutcome(failing, db, q, sqltype).ok
    ensures ParseDialect(sqltype).Some?
    ensures ApplyOutcome(failing, db, q, sqltype).db
            == Db(db.log + SuccessTrace(q, ParseDialect(sqltype).value), [q.version])
  {
  }

  /** A failed entry only appends to the log. It leaves `schema_info` empty
      when the DELETE succeeded, since then the INSERT is what failed; it leaves
      `schema_info` as it was when the dialect, a statement or the DELETE failed. */
  lemma ApplyFails(failing: set<Statement>, db: Db, q: UpdateQuery, sqltype: string)
    requires !ApplyOutcome(failing, db, q, sqltype).ok
    ensures var r := ApplyOutcome(failing, db, q, sqltype);
            db.log <= r.db.log
            && r.db.rows == (if DeleteSucceeds(failing, q, sqltype) then [] else db.rows)
    ensures DeleteSucceeds(failing, q, sqltype) ==> InsertVersion(q.version) in failing
  {
  }

  /** Issuing one more statement of a list extends the issued prefix by it. */
  lemma QueriesExtend(stmts: seq<string>, i: nat)
    requires i < |stmts|
    ensures Queries(stmts[..i + 1]) == Queries(stmts[..i]) + [Query(stmts[i])]
  {
  }

  /** The statement run stops at the first failing statement `i`. */
  lemma RunStatementsStops(failing: set<Statement>, db: Db, stmts: seq<string>, i: nat)
    requires i < |stmts| && i <= FirstFailure(failing, stmts) && Query(stmts[i]) in failing
    ensures RunStatements(failing, db, stmts) == Outcome(false, Db(db.log + Queries(stmts[..i + 1]), db.rows))
  {
  }

  /** The statement run completes when no statement fails. */
  lemma RunStatementsCompletes(failing: set<Statement>, db: Db, stmts: seq<string>)
    requires FirstFailure(failing, stmts) == |stmts|
    ensures RunStatements(failing, db, stmts) == Outcome(true, Db(db.log + Queries(stmts), db.rows))
  {
  }

  /** When statement `k` is the first to fail, the entry fails having issued
      exactly the statements up to and including `k`; neither the DELETE nor
      the INSERT on `schema_info` is issued and its rows are unchanged. */
  lemma ApplyStopsAtFirstFailure(failing: set<Statement>, db: Db, q: UpdateQuery, sqltype: string, k: nat)
    requires ParseDialect(sqltype).Some?
    requires k < |StatementList(SlotsFor(q, ParseDialect(sqltype).value))|
    requires Query(StatementList(SlotsFor(q, ParseDialect(sqltype).value))[k]) in failing
    requires forall j :: 0 <= j < k ==> Query(StatementList(SlotsFor(q, ParseDialect(sqltype).value))[j]) !in failing
    ensures var r := ApplyOutcome(failing, db, q, sqltype);
            var stmts := StatementList(SlotsFor(q, ParseDialect(sqltype).value));
            !r.ok && r.db == Db(db.log + Queries(stmts[..k + 1]), db.rows)
    ensures var r := ApplyOutcome(failing, db, q, sqltype);
            forall s :: s in r.db.log[|db.log|..] ==> s.Query?
  {
  }

  /** An entry whose slot array for the dialect starts with NULL issues no
      catalog statement, yet still rewrites `schema_info`. */
  lemma ApplyEmptyList(failing: set<Statement>, db: Db, q: UpdateQuery, sqltype: string)
    requires ParseDialect(sqltype).Some?
    requires |SlotsFor(q, ParseDialect(sqltype).value)| > 0
    requires SlotsFor(q, ParseDialect(sqltype).value)[0] == None
    ensures var r := ApplyOutcome(failing, db, q, sqltype);
            r.db.log == db.log + (if DeleteVersions in failing then [DeleteVersions]
                                  else [DeleteVersions, InsertVersion(q.version)])
    ensures var r := ApplyOutcome(failing, db, q, sqltype);
            r.ok <==> DeleteVersions !in failing && InsertVersion(q.version) !in failing
  {
  }

  /** The entries of the catalog that the tool applies when the database is at
      version `v`: those with a greater version, in catalog order. */
  function Applicable(catalog: seq<UpdateQuery>, v: int): (r: seq<UpdateQuery>)
    ensures |r| <= |catalog|
    ensures forall j :: 0 <= j < |r| ==> r[j].version > v
  {
    if catalog == [] then []
    else if catalog[0].version > v then [catalog[0]] + Applicable(catalog[1..], v)
    else Applicable(catalog[1..], v)
  }

  /** An entry is applicable exactly when it is in the catalog and newer than `v`. */
  lemma {:induction false} ApplicableMembers(catalog: seq<UpdateQuery>, v: int, q: UpdateQuery)
    ensures q in Applicable(catalog, v) <==> q in catalog && q.version > v
    decreases |catalog|
  {
    if catalog != [] {
      ApplicableMembers(catalog[1..], v, q);
      assert q in catalog <==> q == catalog[0] || q in catalog[1..];
    }
  }

  /** The statements issued by cleanly applying each of `qs` in turn. */
  function Trace(qs: seq<UpdateQuery>, d: Dialect): seq<Statement> {
    if qs == [] then [] else SuccessTrace(qs[0], d) + Trace(qs[1..], d)
  }

  /** The catalog loop: walk the catalog in storage order, apply every entry
      whose version exceeds `v`, and stop at the first entry that fails. */
  function RunCatalog(failing: set<Statement>, db: Db, catalog: seq<UpdateQuery>, v: int, sqltype: string): (r: Outcome)
    ensures db.log <= r.db.log
    decreases |catalog|
  {
    if catalog == [] then Outcome(true, db)
    else if catalog[0].version > v then
      var a := ApplyOutcome(failing, db, catalog[0], sqltype);
      if !a.ok then a else RunCatalog(failing, a.db, catalog[1..], v, sqltype)
    else RunCatalog(failing, db, catalog[1..], v, sqltype)
  }

  /** The catalog loop succeeds exactly when every applicable entry applies cleanly. */
  lemma {:induction false} RunCatalogOk(failing: set<Statement>, db: Db, catalog: seq<UpdateQuery>, v: int, sqltype: string, d: Dialect)
    requires ParseDialect(sqltype) == Some(d)
    ensures RunCatalog(failing, db, catalog, v, sqltype).ok
            <==> forall q :: q in Applicable(catalog, v) ==> EntrySucceeds(failing, q, d)
    decreases |catalog|
  {
    if catalog != [] {
      var a := ApplyOutcome(failing, db, catalog[0], sqltype);
      RunCatalogOk(failing, db, catalog[1..], v, sqltype, d);
      RunCatalogOk(failing, a.db, catalog[1..], v, sqltype, d);
      if catalog[0].version > v {
        ApplyOkIff(failing, db, catalog[0], sqltype);
        assert Applicable(catalog, v) == [catalog[0]] + Applicable(catalog[1..], v);
      }
    }
  }

  /** Applying `q` and then the entries `qs` issues `q`'s statements first. */
  lemma TraceCons(q: UpdateQuery, qs: seq<UpdateQuery>, d: Dialect)
    ensures Trace([q] + qs, d) == SuccessTrace(q, d) + Trace(qs, d)
  {
    assert ([q] + qs)[1..] == qs;
  }

  /** Two successive extensions of a log extend it by their concatenation. */
  lemma LogsCompose(log0: seq<Statement>, log1: seq<Statement>, log2: seq<Statement>,
                    head: seq<Statement>, tail: seq<Statement>)
    requires log1 == log0 + head && log2 == log1 + tail
    ensures log2 == log0 + (head + tail)
  {
  }

  /** A successful catalog loop issues exactly the statements of the applicable
      entries, each entry once and in catalog order. */
  lemma {:induction false} RunCatalogSucceeds(failing: set<Statement>, db: Db, catalog: seq<UpdateQuery>, v: int, sqltype: string, d: Dialect)
    requires ParseDialect(sqltype) == Some(d)
    requires RunCatalog(failing, db, catalog, v, sqltype).ok
    ensures RunCatalog(failing, db, catalog, v, sqltype).db.log == db.log + Trace(Applicable(catalog, v), d)
    decreases |catalog|
  {
    if catalog != [] {
      var rest := catalog[1..];
      if catalog[0].version > v {
        var a := ApplyOutcome(failing, db, catalog[0], sqltype);
        ApplySucceeds(failing, db, catalog[0], sqltype);
        var r := RunCatalog(failing, a.db, rest, v, sqltype);
        assert RunCatalog(failing, db, catalog, v, sqltype) == r;
        RunCatalogSucceeds(failing, a.db, rest, v, sqltype, d);
        assert Applicable(catalog, v) == [catalog[0]] + Applicable(rest, v);
        TraceCons(catalog[0], Applicable(rest, v), d);
        LogsCompose(db.log, a.db.log, r.db.log, SuccessTrace(catalog[0], d), Trace(Applicable(rest, v), d));
      } else {
        RunCatalogSucceeds(failing, db, rest, v, sqltype, d);
      }
    }
  }

  /** A successful catalog loop leaves `schema_info` holding exactly the version
      of the last applicable entry, or its old rows if no entry was applicable. */
  lemma {:induction false} RunCatalogStoredVersion(failing: set<Statement>, db: Db, catalog: seq<UpdateQuery>, v: int, sqltype: string)
    requires RunCatalog(failing, db, catalog, v, sqltype).ok
    ensures var applied := Applicable(catalog, v);
            RunCatalog(failing, db, catalog, v, sqltype).db.rows
            == if applied == [] then db.rows else [applied[|applied| - 1].version]
    decreases |catalog|
  {
    if catalog != [] {
      var rest := catalog[1..];
      if catalog[0].version > v {
        var a := ApplyOutcome(failing, db, catalog[0], sqltype);
        ApplySucceeds(failing, db, catalog[0], sqltype);
        RunCatalogStoredVersion(failing, a.db, rest, v, sqltype);
      } else {
        RunCatalogStoredVersion(failing, db, rest, v, sqltype);
      }
    }
  }

  /** A failing catalog loop failed at an applicable entry `j`: every entry
      before it was handled successfully, and the final state is the one that
      entry's failed application left, so no later entry was attempted. */
  lemma {:induction false} RunCatalogFails(failing: set<Statement>, db: Db, catalog: seq<UpdateQuery>, v: int, sqltype: string)
    returns (j: nat)
    requires !RunCatalog(failing, db, catalog, v, sqltype).ok
    ensures j < |catalog| && catalog[j].version > v
    ensures RunCatalog(failing, db, catalog[..j], v, sqltype).ok
    ensures var a := ApplyOutcome(failing, RunCatalog(failing, db, catalog[..j], v, sqltype).db, catalog[j], sqltype);
            !a.ok && RunCatalog(failing, db, catalog, v, sqltype) == a
    decreases |catalog|
  {
    var rest := catalog[1..];
    var a := ApplyOutcome(failing, db, catalog[0], sqltype);
    if catalog[0].version > v && !a.ok {
      j := 0;
      assert catalog[..0] == [];
    } else {
      var db1 := if catalog[0].version > v then a.db else db;
      var k := RunCatalogFails(failing, db1, rest, v, sqltype);
      j := k + 1;
      assert catalog[..j][1..] == rest[..k];
      assert RunCatalog(failing, db, catalog[..j], v, sqltype) == RunCatalog(failing, db1, rest[..k], v, sqltype);
    }
  }

  /** After a failing catalog loop `schema_info` is empty when the failing
      entry `j` got as far as a successful DELETE (its INSERT failed).
      Otherwise it holds the version of the last entry applied before `j`, or
      its old rows if there was none: a failing statement leaves the version
      of the last applied update. */
  lemma RunCatalogFailureRows(failing: set<Statement>, db: Db, catalog: seq<UpdateQuery>, v: int, sqltype: string)
    returns (j: nat)
    requires !RunCatalog(failing, db, catalog, v, sqltype).ok
    ensures j < |catalog| && catalog[j].version > v
    ensures var applied := Applicable(catalog[..j], v);
            var rows := RunCatalog(failing, db, catalog, v, sqltype).db.rows;
            rows == if DeleteSucceeds(failing, catalog[j], sqltype) then []
                    else if applied == [] then db.rows
                    else [applied[|applied| - 1].version]
  {
    j := RunCatalogFails(failing, db, catalog, v, sqltype);
    var before := RunCatalog(failing, db, catalog[..j], v, sqltype);
    RunCatalogStoredVersion(failing, db, catalog[..j], v, sqltype);
    ApplyFails(failing, before.db, catalog[j], sqltype);
  }

  /** With an unrecognised SQL type nothing is executed; the loop fails as soon
      as there is an entry to apply, and succeeds vacuously otherwise. */
  lemma {:induction false} RunCatalogUnknownDialect(failing: set<Statement>, db: Db, catalog: seq<UpdateQuery>, v: int, sqltype: string)
    requires ParseDialect(sqltype).None?
    ensures RunCatalog(failing, db, catalog, v, sqltype) == Outcome(Applicable(catalog, v) == [], db)
    decreases |catalog|
  {
    if catalog != [] && catalog[0].version <= v {
      RunCatalogUnknownDialect(failing, db, catalog[1..], v, sqltype);
    }
  }

  /** The applicable entries of an ascending catalog are ascending: updates
      are applied in increasing version order. */
  lemma {:induction false} ApplicableAscending(catalog: seq<UpdateQuery>, v: int)
    requires Ascending(catalog)
    ensures Ascending(Applicable(catalog, v))
    decreases |catalog|
  {
    if catalog != [] {
      var rest := catalog[1..];
      ApplicableAscending(rest, v);
      var applied := Applicable(catalog, v);
      if catalog[0].version > v {
        forall i, j | 0 <= i < j < |applied|
          ensures applied[i].version < applied[j].version
        {
          if i == 0 {
            assert applied[j] in Applicable(rest, v);
            ApplicableMembers(rest, v, applied[j]);
          }
        }
      }
    }
  }

  /** When the catalog's last entry is newer than `v`, it is the last entry applied. */
  lemma {:induction false} ApplicableLast(catalog: seq<UpdateQuery>, v: int)
    requires catalog != [] && catalog[|catalog| - 1].version > v
    ensures var applied := Applicable(catalog, v);
            applied != [] && applied[|applied| - 1] == catalog[|catalog| - 1]
    decreases |catalog|
  {
    if |catalog| > 1 {
      ApplicableLast(catalog[1..], v);
    }
  }

  /** A successful catalog loop over a catalog that ends at `latest`,
      started below `latest`, leaves `schema_info` holding exactly `latest`. */
  lemma RunCatalogReachesLatest(failing: set<Statement>, db: Db, catalog: seq<UpdateQuery>, v: int, latest: int, sqltype: string)
    requires catalog != [] && catalog[|catalog| - 1].version == latest
    requires v < latest
    requires RunCatalog(failing, db, catalog, v, sqltype).ok
    ensures RunCatalog(failing, db, catalog, v, sqltype).db.rows == [latest]
  {
    ApplicableLast(catalog, v);
    RunCatalogStoredVersion(failing, db, catalog, v, sqltype);
  }

  /** The version read from `schema_info` is usable: not 0 and not newer than `latest`. */
  predicate ValidVersion(v: int, latest: int) {
    v != 0 && v <= latest
  }

  /** Updates go ahead only with the update flag set and a "y" or "yes" answer. */
  predicate UpdateConfirmed(alwaysUpdate: bool, answer: string) {
    alwaysUpdate && (answer == "y" || answer == "yes")
  }

  /** The exit code of the tool and the database state it leaves. */
  datatype Exit = Exit(code: int, db: Db)

  /** The tool once the configuration is loaded, the connection is up and the
      version `v` has been read: reject an invalid version, stop if up to date,
      ask for confirmation, then run the catalog loop. */
  function ToolOutcome(failing: set<Statement>, db: Db, catalog: seq<UpdateQuery>, sqltype: string,
                       v: int, latest: int, alwaysUpdate: bool, answer: string): (r: Exit)
    ensures r.code == 0 || r.code == -1
    ensures !ValidVersion(v, latest) ==> r == Exit(-1, db)
    ensures ValidVersion(v, latest) && v == latest ==> r == Exit(0, db)
    ensures r.db != db ==> ValidVersion(v, latest) && v < latest && UpdateConfirmed(alwaysUpdate, answer)
    ensures r.code == -1 <==> (!ValidVersion(v, latest)
                               || (v < latest && UpdateConfirmed(alwaysUpdate, answer)
                                   && !RunCatalog(failing, db, catalog, v, sqltype).ok))
  {
    if !ValidVersion(v, latest) then Exit(-1, db)
    else if v == latest then Exit(0, db)
    else if !UpdateConfirmed(alwaysUpdate, answer) then Exit(0, db)
    else
      var o := RunCatalog(failing, db, catalog, v, sqltype);
      Exit(if o.ok then 0 else -1, o.db)
  }

  /** Running the tool again after a successful update over a catalog that
      ends at `latest`: the database now holds `latest`, so the second run
      finds it up to date, exits with 0 and executes nothing. */
  lemma RerunIsNoOp(failing: set<Statement>, db: Db, catalog: seq<UpdateQuery>, sqltype: string,
                    v: int, latest: int, alwaysUpdate: bool, answer: string,
                    alwaysUpdate2: bool, answer2: string)
    requires catalog != [] && catalog[|catalog| - 1].version == latest
    requires latest > 0
    requires ValidVersion(v, latest) && v < latest && UpdateConfirmed(alwaysUpdate, answer)
    requires ToolOutcome(failing, db, catalog, sqltype, v, latest, alwaysUpdate, answer).code == 0
    ensures var first := ToolOutcome(failing, db, catalog, sqltype, v, latest, alwaysUpdate, answer);
            first.db.rows == [latest]
            && ToolOutcome(failing, first.db, catalog, sqltype, first.db.rows[0], latest, alwaysUpdate2, answer2)
               == Exit(0, first.db)
  {
    RunCatalogReachesLatest(failing, db, catalog, v, latest, sqltype);
  }

  /** The compiled-in catalog on a MySQL database at version 1 with no failing
      statement: the CREATE TABLE runs, then `schema_info` is rewritten to 2. */
  lemma ScenarioMysqlUpdate(db: Db)
    ensures ToolOutcome({}, db, UpdateQueries, "mysql", 1, 2, true, "yes")
            == Exit(0, Db(db.log + [Query(MapStoreMy), DeleteVersions, InsertVersion(2)], [2]))
  {
    CatalogShape();
    var q := UpdateQueries[0];
    assert Queries([MapStoreMy]) == [Query(MapStoreMy)];
    assert SuccessTrace(q, MySql) == [Query(MapStoreMy), DeleteVersions, InsertVersion(2)];
    assert ParseDialect("mysql") == Some(MySql);
    var a := ApplyOutcome({}, db, q, "mysql");
    assert a == Outcome(true, Db(db.log + SuccessTrace(q, MySql), [2]));
    assert UpdateQueries[1..] == [];
    assert RunCatalog({}, db, UpdateQueries, 1, "mysql") == a;
  }

  /** A stored version newer than the tool knows is rejected before any update. */
  lemma ScenarioFutureVersion(failing: set<Statement>, db: Db, sqltype: string, alwaysUpdate: bool, answer: string)
    ensures ToolOutcome(failing, db, UpdateQueries, sqltype, 5, 2, alwaysUpdate, answer) == Exit(-1, db)
  {
  }

  /** With an unrecognised SQL type the update fails before any statement runs. */
  lemma ScenarioUnknownDialect(failing: set<Statement>, db: Db)
    ensures ToolOutcome(failing, db, UpdateQueries, "oracle", 1, 2, true, "y") == Exit(-1, db)
  {
  }
}
