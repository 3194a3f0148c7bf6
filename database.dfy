/** The schema-update tool run against a database connection: the statement
    loop of `applyUpdateQuery`, the catalog loop and the checks of `main`,
    each proved to do what its specification in `SchemaUpdate` says. */
module DbUpdate {
  import opened UpdateCatalog
  import opened SchemaUpdate

  /** The database connection. Which statements fail is fixed for the
      connection; every statement issued is appended to `log`, and a
      successful DELETE or INSERT on `schema_info` changes `rows`. */
  class Database {
    const failing: set<Statement>
    var log: seq<Statement>
    var rows: seq<int>

    constructor (failing: set<Statement>, rows: seq<int>)
      ensures this.failing == failing && log == [] && this.rows == rows
    {
      this.failing := failing;
      log := [];
      this.rows := rows;
    }

    /** The state of the database as the specification functions see it. */
    function State(): Db
      reads this
    {
      Db(log, rows)
    }

    /** Issues one statement; it succeeds unless it is a failing one. */
    method ExecuteQuery(s: Statement) returns (ok: bool)
      modifies this
      ensures ok == (s !in failing)
      ensures log == old(log) + [s]
      ensures rows == if ok then RowsAfter(old(rows), s) else old(rows)
    {
      log := log + [s];
      ok := s !in failing;
      if ok {
        rows := RowsAfter(rows, s);
      }
    }

    /** Applies one catalog entry: select the dialect's slot array, execute its
        statements up to the NULL sentinel, stopping at the first failure, then
        replace the rows of `schema_info` by the entry's version. */
    method ApplyUpdateQuery(q: UpdateQuery, sqltype: string) returns (ok: bool)
      requires WellFormed(q)
      modifies this
      ensures Outcome(ok, State()) == ApplyOutcome(failing, old(State()), q, sqltype)
    {
      ghost var db0 := State();
      var dialect := ParseDialect(sqltype);
      if dialect.None? {
        return false;
      }
      var slots := SlotsFor(q, dialect.value);
      assert Terminated(slots);
      ghost var stmts := StatementList(slots);
      assert |stmts| < |slots|;
      ghost var run := RunStatements(failing, db0, stmts);
      var i := 0;
      while slots[i].Some?
        invariant 0 <= i <= |stmts|
        invariant log == db0.log + Queries(stmts[..i])
        invariant rows == db0.rows
        invariant i <= FirstFailure(failing, stmts)
        decreases |slots| - i
      {
        assert slots[i] == Some(stmts[i]);
        var executed := ExecuteQuery(Query(slots[i].value));
        QueriesExtend(stmts, i);
        if !executed {
          RunStatementsStops(failing, db0, stmts, i);
          assert run == Outcome(false, State());
          return false;
        }
        i := i + 1;
      }
      assert stmts[..i] == stmts;
      RunStatementsCompletes(failing, db0, stmts);
      assert run == Outcome(true, State());
      ok := UpdateSchemaVersion(q.version);
    }

    /** Rewrites `schema_info` to the single row `version`: DELETE every row,
        then INSERT the new one, giving up as soon as either fails. */
    method UpdateSchemaVersion(version: int) returns (ok: bool)
      modifies this
      ensures Outcome(ok, State()) == RewriteVersion(failing, old(State()), version)
    {
      var deleted := ExecuteQuery(DeleteVersions);
      if !deleted {
        return false;
      }
      ok := ExecuteQuery(InsertVersion(version));
    }

    /** The catalog loop of `main`: applies, in catalog order, every entry newer
        than `v`, and gives up at the first entry that fails. */
    method ApplyUpdates(catalog: seq<UpdateQuery>, v: int, sqltype: string) returns (ok: bool)
      requires forall i :: 0 <= i < |catalog| ==> WellFormed(catalog[i])
      modifies this
      ensures Outcome(ok, State()) == RunCatalog(failing, old(State()), catalog, v, sqltype)
    {
      var i := 0;
      while i < |catalog|
        invariant 0 <= i <= |catalog|
        invariant RunCatalog(failing, old(State()), catalog, v, sqltype)
                  == RunCatalog(failing, State(), catalog[i..], v, sqltype)
      {
        assert catalog[i..][1..] == catalog[i + 1..];
        if catalog[i].version > v {
          var applied := ApplyUpdateQuery(catalog[i], sqltype);
          if !applied {
            return false;
          }
        }
        i := i + 1;
      }
      return true;
    }

    /** `main` once the configuration is loaded, the connection is up and the
        stored version `v` has been read: returns the exit code. */
    method Run(catalog: seq<UpdateQuery>, sqltype: string, v: int, latest: int,
               alwaysUpdate: bool, answer: string) returns (code: int)
      requires forall i :: 0 <= i < |catalog| ==> WellFormed(catalog[i])
      modifies this
      ensures Exit(code, State())
              == ToolOutcome(failing, old(State()), catalog, sqltype, v, latest, alwaysUpdate, answer)
    {
      if v == 0 || v > latest {
        return -1;
      }
      if v == latest {
        return 0;
      }
      if !alwaysUpdate || (answer != "y" && answer != "yes") {
        return 0;
      }
      var updated := ApplyUpdates(catalog, v, sqltype);
      code := if updated then 0 else -1;
    }
  }
}
