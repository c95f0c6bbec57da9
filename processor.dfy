/** The processor's aggregation steps as they run: each walks its rows once
    and updates, in place, the `schemas` dictionary its caller owns. Each
    method is proved equal to the corresponding fold of module Structure,
    whose lemmas state what the folds build. */
module Processor {
  import opened Structure

  /** The caller-owned dictionary `schema name -> table name -> table record`
      that the processing steps mutate. */
  class SchemaTree {
    var schemas: Tree

    constructor ()
      ensures schemas == map[]
    {
      schemas := map[];
    }
  }

  /** How a processing step ends: normally, or by a failed lookup. */
  datatype Outcome = Pass | Fail(error: KeyError)

  /** The lookup `schemas[schema]["tables"][table]`, raising on the first
      missing key. */
  function Lookup(t: Tree, ref: TableRef): (r: Result<TableInfo, KeyError>)
    ensures r.Ok? <==> HasTable(t, ref)
    ensures r.Ok? ==> r.value == t[ref.schema][ref.table]
    ensures r.Err? ==> r.error == MissingKey(t, ref)
  {
    if HasTable(t, ref) then Ok(t[ref.schema][ref.table]) else Err(MissingKey(t, ref))
  }

  /** Registers every table row: creates its schema when absent and
      (over)writes its table entry. */
  method ProcessTables(tables: seq<TableRow>, tree: SchemaTree)
    modifies tree
    ensures tree.schemas == AddTables(old(tree.schemas), tables)
  {
    var i := 0;
    while i < |tables|
      invariant 0 <= i <= |tables|
      invariant tree.schemas == AddTables(old(tree.schemas), tables[..i])
    {
      var row := tables[i];
      AddTablesStep(old(tree.schemas), tables, i);
      ghost var before := tree.schemas;
      if row.schema !in tree.schemas {
        tree.schemas := tree.schemas[row.schema := map[]];
      }
      var info := TableInfo(row.tableType, row.owner, None, [], None);
      if Truthy(row.comment) {
        info := info.(comment := row.comment);
      }
      assert info == NewTable(row);
      tree.schemas := tree.schemas[row.schema := tree.schemas[row.schema][row.table := info]];
      assert tree.schemas == InsertTable(before, row);
      i := i + 1;
    }
    assert tables[..i] == tables;
  }

  /** One pass of the columns loop: builds the row's column record, then
      appends it to the row's table, or stops with the first missing key and
      leaves the dictionary as it was. */
  method ProcessColumnRow(row: ColumnRow, tree: SchemaTree) returns (outcome: Outcome)
    modifies tree
    ensures HasTable(old(tree.schemas), ColumnRef(row)) ==>
              outcome == Pass && tree.schemas == AppendColumn(old(tree.schemas), row)
    ensures !HasTable(old(tree.schemas), ColumnRef(row)) ==>
              outcome == Fail(MissingKey(old(tree.schemas), ColumnRef(row))) && tree.schemas == old(tree.schemas)
  {
    var colInfo := Column(row.name, row.dataType, None);
    if Truthy(row.comment) {
      colInfo := colInfo.(comment := row.comment);
    }
    var found := Lookup(tree.schemas, ColumnRef(row));
    if found.Err? {
      return Fail(found.error);
    }
    assert colInfo == ColumnOf(row);
    var info := found.value;
    tree.schemas := tree.schemas[row.schema := tree.schemas[row.schema][row.table := info.(columns := info.columns + [colInfo])]];
    return Pass;
  }

  /** Appends one column record per row to the row's table, in row order.
      At the first row whose schema or table is missing it stops with that
      key; the rows before it have been applied. */
  method ProcessColumns(columns: seq<ColumnRow>, tree: SchemaTree) returns (outcome: Outcome)
    modifies tree
    ensures var k := FirstUnresolved(old(tree.schemas), columns, ColumnRef);
            && tree.schemas == AddColumns(old(tree.schemas), columns[..k])
            && outcome == if k == |columns| then Pass else Fail(MissingKey(old(tree.schemas), ColumnRef(columns[k])))
  {
    ghost var t0 := tree.schemas;
    ghost var k := FirstUnresolved(t0, columns, ColumnRef);
    var i := 0;
    while i < |columns|
      invariant 0 <= i <= k
      invariant AllResolve(t0, columns[..i], ColumnRef)
      invariant tree.schemas == AddColumns(t0, columns[..i])
    {
      ColumnsLoopStep(t0, columns, i, tree.schemas);
      outcome := ProcessColumnRow(columns[i], tree);
      if outcome.Fail? {
        return;
      }
      i := i + 1;
    }
    assert columns[..i] == columns;
    return Pass;
  }

  /** One pass of the constraints loop: gives the row's table a fresh empty
      list when it has none or an empty one, then appends the row's
      constraint record; or stops with the first missing key and leaves the
      dictionary as it was. */
  method ProcessConstraintRow(row: ConstraintRow, tree: SchemaTree) returns (outcome: Outcome)
    modifies tree
    ensures HasTable(old(tree.schemas), ConstraintRef(row)) ==>
              outcome == Pass && tree.schemas == AppendConstraint(old(tree.schemas), row)
    ensures !HasTable(old(tree.schemas), ConstraintRef(row)) ==>
              outcome == Fail(MissingKey(old(tree.schemas), ConstraintRef(row))) && tree.schemas == old(tree.schemas)
  {
    var found := Lookup(tree.schemas, ConstraintRef(row));
    if found.Err? {
      return Fail(found.error);
    }
    var info := found.value;
    if info.constraints.None? || info.constraints.value == [] {
      info := info.(constraints := Some([]));
    }
    var record := Constraint(row.name, row.constraintType, None, None, None);
    if Truthy(row.comment) {
      record := record.(comment := row.comment);
    }
    if row.isEnforced != None {
      record := record.(isEnforced := row.isEnforced);
    }
    if row.isDeferrable != None {
      record := record.(isDeferrable := row.isDeferrable);
    }
    assert record == ConstraintOf(row);
    info := info.(constraints := Some(info.constraints.value + [record]));
    tree.schemas := tree.schemas[row.schema := tree.schemas[row.schema][row.table := info]];
    return Pass;
  }

  /** Appends one constraint record per row to the row's table, in row
      order. At the first row whose schema or table is missing it stops with
      that key; the rows before it have been applied. */
  method ProcessConstraints(constraints: seq<ConstraintRow>, tree: SchemaTree) returns (outcome: Outcome)
    modifies tree
    ensures var k := FirstUnresolved(old(tree.schemas), constraints, ConstraintRef);
            && tree.schemas == AddConstraints(old(tree.schemas), constraints[..k])
            && outcome == if k == |constraints| then Pass else Fail(MissingKey(old(tree.schemas), ConstraintRef(constraints[k])))
  {
    ghost var t0 := tree.schemas;
    ghost var k := FirstUnresolved(t0, constraints, ConstraintRef);
    var i := 0;
    while i < |constraints|
      invariant 0 <= i <= k
      invariant AllResolve(t0, constraints[..i], ConstraintRef)
      invariant tree.schemas == AddConstraints(t0, constraints[..i])
    {
      ConstraintsLoopStep(t0, constraints, i, tree.schemas);
      outcome := ProcessConstraintRow(constraints[i], tree);
      if outcome.Fail? {
        return;
      }
      i := i + 1;
    }
    assert constraints[..i] == constraints;
    return Pass;
  }

  /** Builds the description of one database from its three row sets: the
      metadata header with its defaults, then tables, columns and
      constraints applied in that order to one fresh dictionary. A failed
      lookup aborts the whole build. */
  method ProcessDatabaseStructure(databaseInfo: map<string, Option<string>>, tables: seq<TableRow>,
                                  columns: seq<ColumnRow>, constraints: seq<ConstraintRow>)
    returns (r: Result<DatabaseStructure, KeyError>)
    ensures r == BuildStructure(databaseInfo, tables, columns, constraints)
  {
    var tree := new SchemaTree();
    var metadata := Metadata(Get(databaseInfo, "kind", Some("IMPORTED DATABASE")),
                             Get(databaseInfo, "owner", Some("")),
                             Get(databaseInfo, "comment", Some("")));
    ProcessTables(tables, tree);
    ghost var withTables := tree.schemas;
    var outcome := ProcessColumns(columns, tree);
    if outcome.Fail? {
      return Err(outcome.error);
    }
    assert columns[..|columns|] == columns;
    ghost var withColumns := tree.schemas;
    assert withColumns == AddColumns(withTables, columns);
    outcome := ProcessConstraints(constraints, tree);
    if outcome.Fail? {
      return Err(outcome.error);
    }
    assert constraints[..|constraints|] == constraints;
    assert tree.schemas == AddConstraints(withColumns, constraints);
    return Ok(DatabaseStructure(metadata, tree.schemas));
  }
}
