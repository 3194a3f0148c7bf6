# dbupdate: the schema-update tool of an OpenTibia server, modelled in Dafny

`dbupdate` brings a game server's database schema up to date. It reads the
version stored in the `schema_info` table. It rejects a version of 0 or one
newer than the tool knows, and stops if the database is already current. It
asks for confirmation. Then it walks a compiled-in catalog of updates. Each
entry is a target version plus one NULL-terminated statement list per SQL
dialect (PostgreSQL, MySQL, SQLite). The tool applies, in storage order, every
entry newer than the stored version. Applying an entry means:

- run that dialect's statements in order, stopping at the first failure;
- then replace the rows of `schema_info` by the entry's version (a DELETE,
  then an INSERT).

The tool gives up at the first entry that fails.

The project has three modules:

- `UpdateCatalog` (`catalog.dfy`) holds the catalog data: dialects and the
  selection by the configured `sql_type`. It also holds entries with
  32-slot statement arrays where `None` is the NULL terminator, the reading of
  a slot array up to its terminator, and the compiled-in one-entry catalog.
- `SchemaUpdate` (`migration.dfy`) states what the tool does as functions of
  the database state. That state is the log of statements issued and the rows
  of `schema_info`. `ApplyOutcome` covers one entry, `RunCatalog` the catalog
  loop, and `ToolOutcome` the checks of `main` followed by the loop. The
  lemmas prove the properties listed below.
- `DbUpdate` (`database.dfy`) is the imperative side. The class `Database`
  has the statement log and the `schema_info` rows as fields. Its methods are
  written like the source's code: the sentinel loop of `applyUpdateQuery`,
  the catalog loop and the checks of `main`. Each is proved to leave exactly
  the state its `SchemaUpdate` function describes.

The model follows the code as written:

- The catalog is walked in storage order and is never sorted. Ascending order
  is only a hypothesis of the lemmas that need it.
- The dialect is checked again inside every application of an entry. With an
  unknown dialect the first applicable entry fails before any statement runs.
- A stored version is rejected only when it is 0 or greater than the current
  version. A negative version passes the check.
- Updates run only when the update flag is set AND the answer is `y` or
  `yes`. Any other combination exits with 0 and executes nothing.

## Model

| member | source | states |
|---|---|---|
| UpdateCatalog.ParseDialect | otserv/trunk/tools/dbupdate/dbupdate.cpp:100-103 | a dialect is selected exactly when `sql_type` is `pgsql`, `mysql` or `sqlite`, and the selected dialect's name is the configured string |
| UpdateCatalog.ParseDialectName | otserv/trunk/tools/dbupdate/dbupdate.cpp:100-102 | each dialect is selected by its own name and by no other string |
| UpdateCatalog.SlotsFor | otserv/trunk/tools/dbupdate/dbupdate.cpp:100-102 | the slot array an entry holds for the selected dialect: `pgQuery`, `myQuery` or `liteQuery` |
| UpdateCatalog.StatementList | otserv/trunk/tools/dbupdate/dbupdate.cpp:105 | the statements of a slot array are exactly the slots before the first NULL, in index order; with a NULL present, that NULL is at the returned length |
| UpdateCatalog.Pad | otserv/trunk/tools/dbupdate/dbupdate.cpp:33-38 | an aggregate-initialised 32-slot array with fewer than 32 statements has the declared capacity and holds a NULL terminator |
| UpdateCatalog.PadRoundTrip | otserv/trunk/tools/dbupdate/dbupdate.cpp:64-89 | reading back an initialised slot array up to its terminator yields exactly the statements written into it |
| UpdateCatalog.CatalogShape | otserv/trunk/tools/dbupdate/dbupdate.cpp:40-90 | the compiled-in catalog is well formed and ascending, has one entry to version 2, and each dialect's list is exactly that dialect's `CREATE TABLE map_store` |
| SchemaUpdate.FirstFailure | otserv/trunk/tools/dbupdate/dbupdate.cpp:105-110 | the index returned has every earlier statement succeeding, and is either the list's length or a statement that fails |
| SchemaUpdate.RunStatements | otserv/trunk/tools/dbupdate/dbupdate.cpp:105-110 | running a statement list in order stops at the first failure; it succeeds exactly when no statement fails, only appends to the log and leaves `schema_info` untouched |
| SchemaUpdate.RewriteVersion | otserv/trunk/tools/dbupdate/dbupdate.cpp:112-120 | the DELETE, then the INSERT only if the DELETE succeeded; it succeeds exactly when neither fails and then `schema_info` holds exactly the new version; on failure `schema_info` is unchanged or empty |
| SchemaUpdate.ApplyOutcome | otserv/trunk/tools/dbupdate/dbupdate.cpp:92-123 | applying one entry: an unknown dialect fails at once, otherwise the dialect's statements run and only if all succeed is the version rewritten; the `Apply*` lemmas below characterise its result |
| SchemaUpdate.ApplyUnknownDialect | otserv/trunk/tools/dbupdate/dbupdate.cpp:100-103 | with an unrecognised `sql_type`, applying an entry returns false with nothing executed and `schema_info` untouched |
| SchemaUpdate.ApplyOkIff | otserv/trunk/tools/dbupdate/dbupdate.cpp:92-123 | applying an entry returns true exactly when the dialect is known and none of its statements, nor the DELETE, nor the INSERT fails |
| SchemaUpdate.ApplySucceeds | otserv/trunk/tools/dbupdate/dbupdate.cpp:105-122 | a successful entry issues its statements in order, each once, then the DELETE and the INSERT; afterwards `schema_info` holds exactly one row, the entry's version |
| SchemaUpdate.ApplyFails | otserv/trunk/tools/dbupdate/dbupdate.cpp:107-119 | a failed entry only appends to the log; `schema_info` is empty exactly when the dialect is known, none of its statements failed and the DELETE succeeded (so the INSERT failed), and otherwise keeps its rows |
| SchemaUpdate.ApplyStopsAtFirstFailure | otserv/trunk/tools/dbupdate/dbupdate.cpp:105-110 | when statement k is the first to fail, the entry returns false having issued exactly statements 0..k; no DELETE or INSERT is issued and `schema_info` is unchanged |
| SchemaUpdate.ApplyEmptyList | otserv/trunk/tools/dbupdate/dbupdate.cpp:105-120 | an entry whose list starts with NULL issues no catalog statement but still issues the DELETE and, if that succeeds, the INSERT; it succeeds exactly when both do |
| SchemaUpdate.Applicable | otserv/trunk/tools/dbupdate/dbupdate.cpp:197-198 | the entries selected for application are all newer than the stored version and no more numerous than the catalog |
| SchemaUpdate.ApplicableMembers | otserv/trunk/tools/dbupdate/dbupdate.cpp:197-198 | an entry is selected exactly when it is in the catalog and its version exceeds the stored version |
| SchemaUpdate.RunCatalog | otserv/trunk/tools/dbupdate/dbupdate.cpp:196-206 | the catalog loop only appends to the statement log |
| SchemaUpdate.RunCatalogOk | otserv/trunk/tools/dbupdate/dbupdate.cpp:196-206 | with a known dialect, the catalog loop succeeds exactly when every selected entry applies cleanly |
| SchemaUpdate.RunCatalogSucceeds | otserv/trunk/tools/dbupdate/dbupdate.cpp:196-206 | a successful catalog loop issues exactly the statements of the selected entries, each entry once and in catalog order |
| SchemaUpdate.RunCatalogStoredVersion | otserv/trunk/tools/dbupdate/dbupdate.cpp:196-206 | after a successful catalog loop `schema_info` holds exactly the version of the last selected entry, or its old rows if none was selected |
| SchemaUpdate.RunCatalogFails | otserv/trunk/tools/dbupdate/dbupdate.cpp:197-204 | a failing catalog loop failed at a selected entry j; everything before j succeeded; the final state is the one j's failed application left, so no later entry was attempted |
| SchemaUpdate.RunCatalogFailureRows | otserv/trunk/tools/dbupdate/dbupdate.cpp:197-204 | after a failing catalog loop `schema_info` is empty when the failing entry got past its statements and its DELETE; otherwise, as when a statement fails, it holds the version of the last entry applied before the failure, or its old rows if none was |
| SchemaUpdate.RunCatalogUnknownDialect | otserv/trunk/tools/dbupdate/dbupdate.cpp:100-103 | with an unrecognised `sql_type` the loop executes nothing; it fails if any entry is selected and succeeds vacuously otherwise |
| SchemaUpdate.ApplicableAscending | otserv/trunk/tools/dbupdate/dbupdate.cpp:197-198 | over an ascending catalog, the selected entries are applied in strictly increasing version order |
| SchemaUpdate.ApplicableLast | otserv/trunk/tools/dbupdate/dbupdate.cpp:197-198 | when the catalog's last entry is newer than the stored version, it is the last entry selected |
| SchemaUpdate.RunCatalogReachesLatest | otserv/trunk/tools/dbupdate/dbupdate.cpp:196-208 | a successful loop over a catalog ending at the current version, started below it, leaves `schema_info` holding exactly the current version |
| SchemaUpdate.ValidVersion | otserv/trunk/tools/dbupdate/dbupdate.cpp:173 | a stored version is usable exactly when it is not 0 and not newer than the current version |
| SchemaUpdate.UpdateConfirmed | otserv/trunk/tools/dbupdate/dbupdate.cpp:192 | updates go ahead exactly when the update flag is set and the answer is `y` or `yes` |
| SchemaUpdate.ToolOutcome | otserv/trunk/tools/dbupdate/dbupdate.cpp:172-206 | exit code 0 or -1; an invalid version (0 or newer than current) gives -1 with nothing executed; an up-to-date version gives 0 with nothing executed; nothing is executed unless the update is confirmed; -1 exactly for an invalid version or a failing loop |
| SchemaUpdate.RerunIsNoOp | otserv/trunk/tools/dbupdate/dbupdate.cpp:180-187 | after a successful update to a catalog ending at the current version, a second run reads the current version, exits with 0 and executes nothing |
| SchemaUpdate.ScenarioMysqlUpdate | otserv/trunk/tools/dbupdate/dbupdate.cpp:196-206 | a MySQL database at version 1 runs the `map_store` CREATE TABLE, then the DELETE and the INSERT; it ends at version 2 with exit code 0 |
| SchemaUpdate.ScenarioFutureVersion | otserv/trunk/tools/dbupdate/dbupdate.cpp:173-176 | a stored version 5 against current version 2 is rejected with -1 before any update |
| SchemaUpdate.ScenarioUnknownDialect | otserv/trunk/tools/dbupdate/dbupdate.cpp:100-103 | with `sql_type` `oracle` the update fails with -1 and no statement is executed |
| DbUpdate.Database.ExecuteQuery | otserv/trunk/tools/dbupdate/dbupdate.cpp:107 | issuing a statement appends it to the log; it succeeds unless it is a failing statement; only a successful DELETE or INSERT changes `schema_info` |
| DbUpdate.Database.ApplyUpdateQuery | otserv/trunk/tools/dbupdate/dbupdate.cpp:92-123 | the sentinel loop and the version rewrite leave exactly the result and state `ApplyOutcome` gives for the old state |
| DbUpdate.Database.UpdateSchemaVersion | otserv/trunk/tools/dbupdate/dbupdate.cpp:112-120 | DELETE then INSERT on `schema_info`, giving up at the first failure; returns true only if both succeed, and then `schema_info` holds exactly the new version |
| DbUpdate.Database.ApplyUpdates | otserv/trunk/tools/dbupdate/dbupdate.cpp:196-206 | the catalog loop leaves exactly the result and state `RunCatalog` gives for the old state |
| DbUpdate.Database.Run | otserv/trunk/tools/dbupdate/dbupdate.cpp:172-206 | the checks of `main` followed by the catalog loop return exactly the exit code and leave exactly the state `ToolOutcome` gives |

## Left out

- Console output, the `std::cin` prompts and `ErrorMessage` (dbupdate.cpp:125-129 and the progress lines). These only report progress; the answer to the prompt is a parameter.
- Loading `dbupdate.lua` with `ConfigManager` is not part of this model. The configured `sql_type` is a parameter.
- The `Database` singleton, the connection check, `storeQuery` and `getDataInt` (dbupdate.cpp:157-172) are foreign code. The version read from `schema_info` is a parameter, and a failed read (exit -1) is not modelled.
- The SQL semantics of `executeQuery`. Each statement only succeeds or fails, according to a fixed set of failing statements given with the connection. So a statement cannot fail because of what an earlier statement did. Catalog statements are taken not to touch `schema_info`.
- `SchemaUpdate.Statement`: the INSERT is `InsertVersion(version)`, not the text the source formats with the version number. The DELETE is the constant `DeleteVersions`. Catalog statements keep their text.
- `CURRENT_SCHEMA_VERSION` is defined in definitions.h, which is not part of this model. It is the parameter `latest`. The scenario lemmas use 2, the version of the catalog's last entry.
- Command-line parsing (dbupdate.cpp:133-138) compares `argv[i]` with string literals by pointer. So `--noinput` and `--update` never match, and as compiled the tool never applies an update. The two flags are parameters instead.
- The out-of-bounds read that a slot array without a NULL would cause (dbupdate.cpp:105). Every entry is required to hold a NULL within its 32 slots, as the compiled-in catalog does.
- `sprintf` into fixed-size buffers for error messages (dbupdate.cpp:149-150, 200-201).
