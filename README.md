# Snowflake schema-structure aggregator, modelled in Dafny

The Snowflake MCP server describes a database by reading three
INFORMATION_SCHEMA result sets: tables, columns and constraints. It folds
their flat rows into one nested dictionary,
`schemas[schema]["tables"][table]`. Each table entry holds a type, an owner,
an optional comment, a list of column records and an optional list of
constraint records. A metadata header (kind, owner, comment) is put in
front of it. This project models that aggregation as the processor runs it
and proves what the resulting structure contains.

Two modules:

- `Structure` (`structure.dfy`) holds the value model:
  - the rows (nullable fields are `Option<string>`);
  - the records built from them;
  - the tree `map<string, map<string, TableInfo>>`;
  - one specification function per loop pass (`InsertTable`,
    `AppendColumn`, `AppendConstraint`) and its fold over the rows
    (`AddTables`, `AddColumns`, `AddConstraints`);
  - `BuildStructure`, the whole pipeline;
  - the lemmas that say what these folds build, table by table.
- `Processor` (`processor.dfy`) holds the code as it runs:
  - `SchemaTree` is the caller-owned dictionary;
  - the three processing steps are methods that loop over their rows and
    update `tree.schemas` in place;
  - `ProcessDatabaseStructure` allocates the tree, fills in the metadata
    defaults and threads the tree through the three steps.

  Each method's postcondition ties its final state (and its outcome) to the
  matching function of `Structure`.

Modelling decisions:

- A lookup that fails does not become a precondition. In the source, a column
  or constraint row naming a missing schema or table makes the direct
  indexing raise a `KeyError`. The model:
  - stops at that row;
  - keeps the updates of the rows before it (the dictionary is mutated in
    place);
  - reports the missing key: the schema name when the schema is absent,
    otherwise the table name.

  `ProcessDatabaseStructure` then returns `Err`, because the source lets the
  exception propagate.
- Comments are kept only when truthy, meaning neither NULL nor the empty
  string. `is_enforced` and `is_deferrable` are kept whenever they are not
  NULL, so an empty string is kept.
- `.get("constraints")` is falsy both for a missing key and for an empty
  list. Either way the list is (re)set to `[]` before the append.
- `database_info.get(key, default)` uses the default only when the key is
  absent. A key that is present but holds NULL stays NULL.

## Model

| member | source | states |
|---|---|---|
| Structure.NewTable | src/mcp_snowflake_server/processor.py:76-83 | a new table record copies type and owner, has no columns and no constraints key, and has a comment exactly when the row's comment is truthy (then equal to it) |
| Structure.ColumnOf | src/mcp_snowflake_server/processor.py:93-98 | a column record copies name and data type, and has a comment exactly when the row's comment is truthy |
| Structure.ConstraintOf | src/mcp_snowflake_server/processor.py:111-120 | a constraint record copies name and type; comment exactly when truthy; is_enforced / is_deferrable exactly when not NULL (an empty value is kept) |
| Structure.MissingKey | src/mcp_snowflake_server/processor.py:100 | a failing `schema[s]["tables"][t]` reports the schema name when the schema is absent, otherwise the table name |
| Structure.FirstUnresolved | src/mcp_snowflake_server/processor.py:89-100 | the index at which a processing loop raises: every earlier row's table is present, that row's is not, and it equals the row count exactly when every row resolves |
| Structure.LastRow | src/mcp_snowflake_server/processor.py:67-85 | the row whose entry survives: present exactly when some row names the table, and no later row names it (last write wins) |
| Structure.InsertTable | src/mcp_snowflake_server/processor.py:72-85 | one pass of the tables loop, as a function of the tree; what it does is stated by `InsertTableAt` |
| Structure.AddTables | src/mcp_snowflake_server/processor.py:67-85 | the tables loop as a fold of `InsertTable` over the rows; what it builds is stated by `AddTablesAt` (and, from an empty tree, by `StructureAt`) |
| Structure.InsertTableAt | src/mcp_snowflake_server/processor.py:72-85 | one tables pass creates only the row's schema, adds only the row's table, overwrites only that entry and leaves every other table as it was |
| Structure.AddTablesAt | src/mcp_snowflake_server/processor.py:67-85 | after the tables loop a schema is present iff it was before or a row names it; a table is present iff it was before or a row names it; a named table holds the last naming row's record; every other table is unchanged |
| Structure.AppendColumn | src/mcp_snowflake_server/processor.py:93-100 | one pass of the columns loop on a present table; what it does is stated by `AddColumnsAt` for the whole loop |
| Structure.AddColumns | src/mcp_snowflake_server/processor.py:89-100 | the columns loop adds no schema and no table |
| Structure.AddColumnsAt | src/mcp_snowflake_server/processor.py:89-100 | after the columns loop each table's column list is its old list followed by the records of the rows naming it, and nothing else of the table changes |
| Structure.ColumnsForConcat | src/mcp_snowflake_server/processor.py:89-100 | the column records appended for a table are one per naming row, in input order |
| Structure.ColumnsForEmpty | src/mcp_snowflake_server/processor.py:89-100 | a table gets no column record exactly when no column row names it |
| Structure.ExistingConstraints | src/mcp_snowflake_server/processor.py:108-109 | the list a constraint is appended to: a missing or empty `constraints` list is falsy and reads as a fresh empty list, a non-empty one is kept; its effect is stated by `AddConstraintsAt` |
| Structure.AppendConstraint | src/mcp_snowflake_server/processor.py:108-122 | one pass of the constraints loop on a present table; what it does is stated by `AddConstraintsAt` for the whole loop |
| Structure.AddConstraints | src/mcp_snowflake_server/processor.py:104-122 | the constraints loop adds no schema and no table |
| Structure.AddConstraintsAt | src/mcp_snowflake_server/processor.py:104-122 | after the constraints loop a table no row names is untouched (no constraints key appears); a named table's list is its old non-empty list, if any, followed by the records of the rows naming it; nothing else changes |
| Structure.ConstraintsForConcat | src/mcp_snowflake_server/processor.py:104-122 | the constraint records appended for a table are one per naming row, in input order |
| Structure.ConstraintsForEmpty | src/mcp_snowflake_server/processor.py:108-109 | a table gets constraint records (and so a constraints list) exactly when some constraint row names it |
| Structure.MetadataOf | src/mcp_snowflake_server/processor.py:131-135 | each of kind, owner and comment is copied when its key is present (even when NULL or empty); otherwise it is "IMPORTED DATABASE", "" and "" respectively |
| Structure.BuildStructure | src/mcp_snowflake_server/processor.py:128-148 | the whole build as a function of the three row sets; when it succeeds is stated by `BuildStructureSucceeds`, what a failure reports by `BuildStructureFails`, and what a success contains by `StructureAt` |
| Structure.BuildStructureSucceeds | src/mcp_snowflake_server/processor.py:139-146 | building succeeds exactly when every column row and every constraint row names a table that some table row declares |
| Structure.BuildStructureFails | src/mcp_snowflake_server/processor.py:139-146 | a failed build reports the first column row naming an undeclared table, or, when there is none, the first such constraint row: the key is that row's schema name when no table row names the schema, else its table name |
| Structure.StructureAt | src/mcp_snowflake_server/processor.py:128-148 | a built structure carries the defaulted metadata; its schemas are those of the table rows; a table is present iff declared and holds the last declaring row's type, owner and comment, exactly its column records in order, and a constraints list only when some constraint row names it |
| Processor.Lookup | src/mcp_snowflake_server/processor.py:100 | the two-level lookup succeeds exactly when the table is present, returns its record, and otherwise fails with the missing key |
| Processor.SchemaTree.constructor | src/mcp_snowflake_server/processor.py:129 | a new dictionary is empty |
| Processor.ProcessTables | src/mcp_snowflake_server/processor.py:66-85 | the in-place loop leaves the dictionary equal to the tables fold over the rows |
| Processor.ProcessColumnRow | src/mcp_snowflake_server/processor.py:90-100 | one pass appends the row's column record to its table, or raises with the missing key and changes nothing |
| Processor.ProcessColumns | src/mcp_snowflake_server/processor.py:88-100 | the dictionary ends as the columns fold over the rows before the first unresolved one; the outcome is normal exactly when every row resolved, otherwise the missing key of the first unresolved row |
| Processor.ProcessConstraintRow | src/mcp_snowflake_server/processor.py:105-122 | one pass (re)creates a missing or empty list and appends the row's constraint record, or raises with the missing key and changes nothing |
| Processor.ProcessConstraints | src/mcp_snowflake_server/processor.py:103-122 | the dictionary ends as the constraints fold over the rows before the first unresolved one; the outcome is normal exactly when every row resolved, otherwise the missing key of the first unresolved row |
| Processor.ProcessDatabaseStructure | src/mcp_snowflake_server/processor.py:124-148 | the result equals `BuildStructure`: the defaulted metadata over tables, then columns, then constraints applied to one fresh dictionary, or the first lookup error |

## Left out

- `_retrieve_table_metadata`, `_retrieve_column_metadata`, `_retrieve_constraints`: the SQL text and the warehouse query are network I/O. Their result rows are the sequence parameters of `ProcessDatabaseStructure`. The SQL `ORDER BY` is not modelled: the rows are processed in whatever order they are given.
- `ORDINAL_POSITION` in the column rows is never read by the aggregator and is not part of `ColumnRow`.
- Logging calls: side effects only.
- `process_database_structure` is `async`. The model runs its three steps sequentially; there is no concurrency in the source once the rows are fetched.
- The `"tables"` wrapper level of each schema entry is folded away: a schema maps directly to its table map. It is created together with the schema and never holds anything else.
- Python dictionaries keep insertion order; maps here do not, so the key order of the result is not modelled.
- Records are modelled as values. The source never shares a record between two places, so aliasing has no visible effect.
- A table entry without a `"columns"` key (possible only for a caller-built dictionary, never for one made by the tables step) cannot be represented. The `AttributeError`/`KeyError` that the columns step would raise on it is not modelled.
- The schema, table and name fields of the rows (`TABLE_SCHEMA`, `TABLE_NAME`, `COLUMN_NAME`, `CONSTRAINT_NAME`) are plain strings and are never NULL in the model, because those information-schema columns are NOT NULL. A NULL there, which the source would use as a dictionary key or copy into `"name"`, is not representable.
- The other row fields are strings or NULL. Other value types the database driver may return are not modelled.
- write_detector.py, the SQL write classifier the server uses to refuse write queries, is a separate component and is not part of this model.
- The server tool handlers (server.py) and the database session (db_client.py) are not part of this model: they are protocol and session glue around the aggregator.
