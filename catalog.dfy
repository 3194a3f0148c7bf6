/** The migration catalog of the database maintenance tool: a compiled-in list
    of schema updates, each a target schema version together with one
    NULL-terminated list of SQL statements per supported dialect. */
module UpdateCatalog {

  datatype Option<T> = None | Some(value: T)

  /** The SQL dialects every catalog entry carries statements for. */
  datatype Dialect = PgSql | MySql | Sqlite

  /** The value of the `sql_type` configuration key that selects each dialect. */
  function DialectName(d: Dialect): string {
    match d
    case PgSql => "pgsql"
    case MySql => "mysql"
    case Sqlite => "sqlite"
  }

  /** The dialect selected by the configured SQL type; any other name selects none. */
  function ParseDialect(sqltype: string): (r: Option<Dialect>)
    ensures r.Some? <==> sqltype == "pgsql" || sqltype == "mysql" || sqltype == "sqlite"
    ensures r.Some? ==> DialectName(r.value) == sqltype
  {
    if sqltype == "pgsql" then Some(PgSql)
    else if sqltype == "mysql" then Some(MySql)
    else if sqltype == "sqlite" then Some(Sqlite)
    else None
  }

  /** Every dialect is selected by its own name and by no other. */
  lemma ParseDialectName(d: Dialect, sqltype: string)
    ensures ParseDialect(DialectName(d)) == Some(d)
    ensures ParseDialect(sqltype) == Some(d) ==> sqltype == DialectName(d)
  {
  }

  /** Number of statement slots per dialect in one catalog entry. */
  const Capacity: nat := 32

  /** A fixed-size slot array of statements; `None` plays the part of NULL. */
  type Slots = seq<Option<string>>

  /** One catalog entry: the schema version it upgrades to and a slot array per dialect. */
  datatype UpdateQuery = UpdateQuery(version: int, pgQuery: Slots, myQuery: Slots, liteQuery: Slots)

  /** A slot array of the declared capacity that holds a NULL terminator. */
  predicate Terminated(slots: Slots) {
    |slots| == Capacity && None in slots
  }

  predicate WellFormed(q: UpdateQuery) {
    Terminated(q.pgQuery) && Terminated(q.myQuery) && Terminated(q.liteQuery)
  }

  /** The slot array an entry holds for a dialect. */
  function SlotsFor(q: UpdateQuery, d: Dialect): Slots {
    match d
    case PgSql => q.pgQuery
    case MySql => q.myQuery
    case Sqlite => q.liteQuery
  }

  /** The statements of a slot array: every slot before the first NULL, in index order. */
  function StatementList(slots: Slots): (r: seq<string>)
    ensures |r| <= |slots|
    ensures forall j :: 0 <= j < |r| ==> slots[j] == Some(r[j])
    ensures |r| < |slots| ==> slots[|r|] == None
    ensures None in slots ==> |r| < |slots|
  {
    if slots == [] || slots[0].None? then []
    else [slots[0].value] + StatementList(slots[1..])
  }

  /** A slot array initialised with the given statements, every later slot NULL,
      as an aggregate initialiser of a fixed-size array leaves it. */
  function Pad(stmts: seq<string>): (slots: Slots)
    requires |stmts| < Capacity
    ensures Terminated(slots)
  {
    var slots := seq(Capacity, j requires 0 <= j < Capacity => if j < |stmts| then Some(stmts[j]) else None);
    assert slots[|stmts|] == None;
    slots
  }

  /** Reading back a padded slot array yields exactly the statements put in. */
  lemma PadRoundTrip(stmts: seq<string>)
    requires |stmts| < Capacity
    ensures StatementList(Pad(stmts)) == stmts
  {
    var slots := Pad(stmts);
    var r := StatementList(slots);
    assert Terminated(slots);
    assert forall j :: 0 <= j < Capacity ==> slots[j] == if j < |stmts| then Some(stmts[j]) else None;
    assert slots[|r|] == None;
    assert forall j :: 0 <= j < |r| ==> slots[j].Some?;
    assert slots[|stmts|].None?;
    forall j | 0 <= j < |r|
      ensures r[j] == stmts[j]
    {
      assert slots[j] == Some(r[j]);
    }
  }

  /** Versions strictly increase along the catalog. */
  predicate Ascending(catalog: seq<UpdateQuery>) {
    forall i, j :: 0 <= i < j < |catalog| ==> catalog[i].version < catalog[j].version
  }

  const MapStorePg: string :=
    "CREATE TABLE \"map_store\" ( \"house_id\" INT NOT NULL,\"data\" BYTEA NOT NULL,KEY(\"house_id\"));"
  const MapStoreMy: string :=
    "CREATE TABLE `map_store` ( `house_id` INT UNSIGNED NOT NULL,`data` BLOB NOT NULL,KEY(`house_id`));"
  const MapStoreLite: string :=
    "CREATE TABLE \"map_store\" ( \"house_id\" INTEGER NOT NULL,\"data\" BLOB NOT NULL,KEY(\"house_id\"));"

  /** The compiled-in catalog: one entry, to schema version 2, creating `map_store`. */
  const UpdateQueries: seq<UpdateQuery> :=
    [UpdateQuery(2, Pad([MapStorePg]), Pad([MapStoreMy]), Pad([MapStoreLite]))]

  /** The compiled-in catalog is well formed, ascending, ends at version 2, and
      each dialect of its one entry holds exactly that dialect's CREATE TABLE. */
  lemma CatalogShape()
    ensures forall i :: 0 <= i < |UpdateQueries| ==> WellFormed(UpdateQueries[i])
    ensures Ascending(UpdateQueries)
    ensures |UpdateQueries| == 1 && UpdateQueries[0].version == 2
    ensures StatementList(SlotsFor(UpdateQueries[0], PgSql)) == [MapStorePg]
    ensures StatementList(SlotsFor(UpdateQueries[0], MySql)) == [MapStoreMy]
    ensures StatementList(SlotsFor(UpdateQueries[0], Sqlite)) == [MapStoreLite]
  {
  }
}
