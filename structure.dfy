/** Value-level model of the nested description of one database that the
    processor builds from information-schema rows: the rows, the records made
    from them, the tree `schema -> table -> info`, and, for each kind of row,
    the effect of folding a sequence of rows into the tree. The imperative
    methods in module Processor are proved against these folds. */
module Structure {

  datatype Option<+T> = None | Some(value: T)

  datatype Result<+T, +E> = Ok(value: T) | Err(error: E)

  // ---------------------------------------------------------------------
  // Rows as the three information-schema queries return them (None is NULL)
  // ---------------------------------------------------------------------

  datatype TableRow = TableRow(
    schema: string,
    table: string,
    tableType: Option<string>,
    owner: Option<string>,
    comment: Option<string>)

  datatype ColumnRow = ColumnRow(
    schema: string,
    table: string,
    name: string,
    dataType: Option<string>,
    comment: Option<string>)

  datatype ConstraintRow = ConstraintRow(
    schema: string,
    table: string,
    name: string,
    constraintType: Option<string>,
    isEnforced: Option<string>,
    isDeferrable: Option<string>,
    comment: Option<string>)

  // ---------------------------------------------------------------------
  // Records of the tree. An optional key that the record may lack is an
  // Option field that is None exactly when the key is absent; `tableType`,
  // `owner`, `dataType` and `constraintType` are always present and hold
  // None when the row held NULL.
  // ---------------------------------------------------------------------

  datatype Column = Column(name: string, dataType: Option<string>, comment: Option<string>)

  datatype Constraint = Constraint(
    name: string,
    constraintType: Option<string>,
    comment: Option<string>,
    isEnforced: Option<string>,
    isDeferrable: Option<string>)

  datatype TableInfo = TableInfo(
    tableType: Option<string>,
    owner: Option<string>,
    comment: Option<string>,
    columns: seq<Column>,
    constraints: Option<seq<Constraint>>)

  /** schema name -> table name -> table record */
  type Tree = map<string, map<string, TableInfo>>

  datatype TableRef = TableRef(schema: string, table: string)

  /** The exception a failed dictionary lookup raises, carrying the missing key. */
  datatype KeyError = KeyError(key: string)

  datatype Metadata = Metadata(kind: Option<string>, owner: Option<string>, comment: Option<string>)

  datatype DatabaseStructure = DatabaseStructure(metadata: Metadata, schemas: Tree)

  // ---------------------------------------------------------------------
  // Lookups
  // ---------------------------------------------------------------------

  /** Truthiness of a nullable string: neither NULL nor the empty string. */
  predicate Truthy(v: Option<string>) {
    v.Some? && v.value != ""
  }

  function TableRowRef(row: TableRow): TableRef { TableRef(row.schema, row.table) }

  function ColumnRef(row: ColumnRow): TableRef { TableRef(row.schema, row.table) }

  function ConstraintRef(row: ConstraintRow): TableRef { TableRef(row.schema, row.table) }

  predicate HasTable(t: Tree, ref: TableRef) {
    ref.schema in t && ref.table in t[ref.schema]
  }

  /** The key reported by `t[schema]["tables"][table]` when it fails:
      the schema name when the schema is absent, else the table name. */
  function MissingKey(t: Tree, ref: TableRef): (e: KeyError)
    requires !HasTable(t, ref)
    ensures ref.schema !in t ==> e.key == ref.schema
    ensures ref.schema in t ==> e.key == ref.table
  {
    if ref.schema !in t then KeyError(ref.schema) else KeyError(ref.table)
  }

  /** Every row's table is present in `t`. */
  predicate AllResolve<R>(t: Tree, rows: seq<R>, ref: R -> TableRef) {
    forall i :: 0 <= i < |rows| ==> HasTable(t, ref(rows[i]))
  }

  /** The index of the first row whose table lookup fails (|rows| if none):
      the row at which the processing loop raises. */
  function FirstUnresolved<R>(t: Tree, rows: seq<R>, ref: R -> TableRef): (k: nat)
    ensures k <= |rows|
    ensures AllResolve(t, rows[..k], ref)
    ensures k < |rows| ==> !HasTable(t, ref(rows[k]))
    ensures k == |rows| <==> AllResolve(t, rows, ref)
    decreases |rows|
  {
    if rows == [] || !HasTable(t, ref(rows[0])) then 0
    else
      var k' := FirstUnresolved(t, rows[1..], ref);
      assert forall i :: 1 <= i < 1 + k' ==> rows[i] == rows[1..][..k'][i - 1];
      1 + k'
  }

  lemma AllResolvePrefix<R>(t: Tree, rows: seq<R>, k: nat, ref: R -> TableRef)
    requires k <= |rows| && AllResolve(t, rows, ref)
    ensures AllResolve(t, rows[..k], ref)
  {
    assert forall i :: 0 <= i < k ==> rows[..k][i] == rows[i];
  }

  /** Two trees with the same schemas and, in each, the same table names. */
  ghost predicate SameTables(t: Tree, u: Tree) {
    && (forall s :: s in t <==> s in u)
    && (forall ref :: HasTable(t, ref) <==> HasTable(u, ref))
  }

  // ---------------------------------------------------------------------
  // Records built from rows
  // ---------------------------------------------------------------------

  /** The table record made from a table row: no columns yet, no
      constraints key, and a comment only when the row's comment is truthy. */
  function NewTable(row: TableRow): (info: TableInfo)
    ensures info.tableType == row.tableType && info.owner == row.owner
    ensures info.columns == [] && info.constraints == None
    ensures info.comment.Some? <==> Truthy(row.comment)
    ensures info.comment.Some? ==> info.comment == row.comment
  {
    var info := TableInfo(row.tableType, row.owner, None, [], None);
    if Truthy(row.comment) then info.(comment := row.comment) else info
  }

  /** The column record made from a column row. */
  function ColumnOf(row: ColumnRow): (c: Column)
    ensures c.name == row.name && c.dataType == row.dataType
    ensures c.comment.Some? <==> Truthy(row.comment)
    ensures c.comment.Some? ==> c.comment == row.comment
  {
    Column(row.name, row.dataType, if Truthy(row.comment) then row.comment else None)
  }

  /** The constraint record made from a constraint row: the comment follows
      truthiness, the two flags follow NULL-ness (an empty flag is kept). */
  function ConstraintOf(row: ConstraintRow): (c: Constraint)
    ensures c.name == row.name && c.constraintType == row.constraintType
    ensures c.comment.Some? <==> Truthy(row.comment)
    ensures c.comment.Some? ==> c.comment == row.comment
    ensures c.isEnforced.Some? <==> row.isEnforced.Some?
    ensures c.isEnforced.Some? ==> c.isEnforced == row.isEnforced
    ensures c.isDeferrable.Some? <==> row.isDeferrable.Some?
    ensures c.isDeferrable.Some? ==> c.isDeferrable == row.isDeferrable
  {
    var c := Constraint(row.name, row.constraintType, None, None, None);
    var c := if Truthy(row.comment) then c.(comment := row.comment) else c;
    var c := if row.isEnforced != None then c.(isEnforced := row.isEnforced) else c;
    if row.isDeferrable != None then c.(isDeferrable := row.isDeferrable) else c
  }

  // ---------------------------------------------------------------------
  // Tables
  // ---------------------------------------------------------------------

  /** One pass of the tables loop: create the schema when absent, then
      (over)write the table entry. */
  function InsertTable(t: Tree, row: TableRow): Tree {
    var t' := if row.schema in t then t else t[row.schema := map[]];
    t'[row.schema := t'[row.schema][row.table := NewTable(row)]]
  }

  /** The tables loop over `rows`, starting from `t`. */
  function AddTables(t: Tree, rows: seq<TableRow>): Tree
    decreases |rows|
  {
    if rows == [] then t
    else InsertTable(AddTables(t, rows[..|rows| - 1]), rows[|rows| - 1])
  }

  /** The tables fold over one more row is one more pass of the loop. */
  lemma AddTablesStep(t: Tree, rows: seq<TableRow>, i: nat)
    requires i < |rows|
    ensures AddTables(t, rows[..i + 1]) == InsertTable(AddTables(t, rows[..i]), rows[i])
  {
    assert rows[..i + 1][..i] == rows[..i];
  }

  /** Some row names this table. */
  predicate Declared(rows: seq<TableRow>, ref: TableRef) {
    exists i :: 0 <= i < |rows| && TableRowRef(rows[i]) == ref
  }

  /** The last row that names this table, if any. */
  function LastRow(rows: seq<TableRow>, ref: TableRef): (r: Option<TableRow>)
    ensures r.Some? <==> Declared(rows, ref)
    ensures r.Some? ==> exists i :: 0 <= i < |rows| && rows[i] == r.value && TableRowRef(rows[i]) == ref &&
                                    forall j :: i < j < |rows| ==> TableRowRef(rows[j]) != ref
    decreases |rows|
  {
    if rows == [] then None
    else if TableRowRef(rows[|rows| - 1]) == ref then Some(rows[|rows| - 1])
    else
      var r := LastRow(rows[..|rows| - 1], ref);
      assert forall i :: 0 <= i < |rows| - 1 ==> rows[..|rows| - 1][i] == rows[i];
      r
  }

  /** What one pass of the tables loop does at `ref`. */
  lemma InsertTableAt(t: Tree, row: TableRow, ref: TableRef)
    ensures ref.schema in InsertTable(t, row) <==> ref.schema in t || row.schema == ref.schema
    ensures HasTable(InsertTable(t, row), ref) <==> HasTable(t, ref) || TableRowRef(row) == ref
    ensures HasTable(InsertTable(t, row), ref) ==>
              InsertTable(t, row)[ref.schema][ref.table] ==
                if TableRowRef(row) == ref then NewTable(row) else t[ref.schema][ref.table]
  {
  }

  /** After the tables loop, a schema is present iff it was present before or
      some row names it; a table is present iff it was present before or some
      row names it; a named table holds the record of the LAST row naming it,
      and every other table is untouched. */
  lemma {:induction false} AddTablesAt(t: Tree, rows: seq<TableRow>, ref: TableRef)
    ensures ref.schema in AddTables(t, rows) <==>
              ref.schema in t || exists i :: 0 <= i < |rows| && rows[i].schema == ref.schema
    ensures HasTable(AddTables(t, rows), ref) <==> HasTable(t, ref) || Declared(rows, ref)
    ensures HasTable(AddTables(t, rows), ref) ==>
              AddTables(t, rows)[ref.schema][ref.table] ==
                match LastRow(rows, ref)
                case Some(row) => NewTable(row)
                case None => t[ref.schema][ref.table]
    decreases |rows|
  {
    if rows != [] {
      var n := |rows| - 1;
      var pre := rows[..n];
      AddTablesAt(t, pre, ref);
      InsertTableAt(AddTables(t, pre), rows[n], ref);
      assert forall i :: 0 <= i < n ==> pre[i] == rows[i];
      if TableRowRef(rows[n]) != ref {
        assert Declared(rows, ref) ==> Declared(pre, ref);
      }
      if rows[n].schema != ref.schema {
        assert (exists i :: 0 <= i < |rows| && rows[i].schema == ref.schema) ==>
               (exists i :: 0 <= i < |pre| && pre[i].schema == ref.schema);
      }
    }
  }

  // ---------------------------------------------------------------------
  // Columns
  // ---------------------------------------------------------------------

  /** One pass of the columns loop: append the row's record to its table. */
  function AppendColumn(t: Tree, row: ColumnRow): Tree
    requires HasTable(t, ColumnRef(row))
  {
    var info := t[row.schema][row.table];
    t[row.schema := t[row.schema][row.table := info.(columns := info.columns + [ColumnOf(row)])]]
  }

  /** The columns loop over rows that all name present tables. It adds no
      schema and no table. */
  function AddColumns(t: Tree, rows: seq<ColumnRow>): (r: Tree)
    requires AllResolve(t, rows, ColumnRef)
    ensures SameTables(t, r)
    decreases |rows|
  {
    if rows == [] then t
    else
      var n := |rows| - 1;
      AllResolvePrefix(t, rows, n, ColumnRef);
      AppendColumn(AddColumns(t, rows[..n]), rows[n])
  }

  /** The columns fold over one more row is one more pass of the loop. */
  lemma AddColumnsStep(t: Tree, rows: seq<ColumnRow>, i: nat)
    requires i < |rows| && AllResolve(t, rows[..i + 1], ColumnRef)
    ensures AllResolve(t, rows[..i], ColumnRef)
    ensures HasTable(AddColumns(t, rows[..i]), ColumnRef(rows[i]))
    ensures AddColumns(t, rows[..i + 1]) == AppendColumn(AddColumns(t, rows[..i]), rows[i])
  {
    assert rows[..i + 1][..i] == rows[..i];
    AllResolvePrefix(t, rows[..i + 1], i, ColumnRef);
  }

  /** What one pass of the columns loop finds at row i, given that rows
      before it were applied: the lookup succeeds exactly before the first
      unresolved row, and then one more row has been folded. */
  lemma ColumnsLoopStep(t: Tree, rows: seq<ColumnRow>, i: nat, cur: Tree)
    requires i < |rows| && i <= FirstUnresolved(t, rows, ColumnRef)
    requires AllResolve(t, rows[..i], ColumnRef) && cur == AddColumns(t, rows[..i])
    ensures HasTable(cur, ColumnRef(rows[i])) <==> i < FirstUnresolved(t, rows, ColumnRef)
    ensures !HasTable(cur, ColumnRef(rows[i])) ==> MissingKey(cur, ColumnRef(rows[i])) == MissingKey(t, ColumnRef(rows[i]))
    ensures HasTable(cur, ColumnRef(rows[i])) ==>
              AllResolve(t, rows[..i + 1], ColumnRef) &&
              AddColumns(t, rows[..i + 1]) == AppendColumn(cur, rows[i])
  {
    var k := FirstUnresolved(t, rows, ColumnRef);
    assert forall j :: 0 <= j < k ==> rows[..k][j] == rows[j];
    if i < k {
      assert rows[..k][..i + 1] == rows[..i + 1];
      AllResolvePrefix(t, rows[..k], i + 1, ColumnRef);
      AddColumnsStep(t, rows, i);
    }
  }

  /** The records of the rows that name `ref`, in row order. */
  function ColumnsFor(rows: seq<ColumnRow>, ref: TableRef): seq<Column>
    decreases |rows|
  {
    if rows == [] then []
    else
      var n := |rows| - 1;
      ColumnsFor(rows[..n], ref) + if ColumnRef(rows[n]) == ref then [ColumnOf(rows[n])] else []
  }

  /** The column records of `a + b` are those of `a` followed by those of `b`: one
      record per row, kept in row order. */
  lemma {:induction false} ColumnsForConcat(a: seq<ColumnRow>, b: seq<ColumnRow>, ref: TableRef)
    ensures ColumnsFor(a + b, ref) == ColumnsFor(a, ref) + ColumnsFor(b, ref)
    decreases |b|
  {
    if b == [] {
      assert a + b == a;
    } else {
      var n := |b| - 1;
      assert (a + b)[..|a + b| - 1] == a + b[..n];
      ColumnsForConcat(a, b[..n], ref);
    }
  }

  /** No column record for a table exactly when no row names it. */
  lemma {:induction false} ColumnsForEmpty(rows: seq<ColumnRow>, ref: TableRef)
    ensures ColumnsFor(rows, ref) == [] <==> forall i :: 0 <= i < |rows| ==> ColumnRef(rows[i]) != ref
    decreases |rows|
  {
    if rows != [] {
      var n := |rows| - 1;
      ColumnsForEmpty(rows[..n], ref);
      assert forall i :: 0 <= i < n ==> rows[..n][i] == rows[i];
    }
  }

  /** One pass of the columns loop seen from one table. */
  lemma AppendColumnAt(t: Tree, row: ColumnRow, ref: TableRef)
    requires HasTable(t, ColumnRef(row)) && HasTable(t, ref)
    ensures HasTable(AppendColumn(t, row), ref)
    ensures var info := t[ref.schema][ref.table];
            AppendColumn(t, row)[ref.schema][ref.table] ==
              if ColumnRef(row) == ref then info.(columns := info.columns + [ColumnOf(row)]) else info
  {
  }

  /** After the columns loop, each table's column list is its old list
      followed by one record per row naming it, in row order; nothing else of
      the table changes. */
  lemma {:induction false} AddColumnsAt(t: Tree, rows: seq<ColumnRow>, ref: TableRef)
    requires AllResolve(t, rows, ColumnRef)
    requires HasTable(t, ref)
    ensures HasTable(AddColumns(t, rows), ref)
    ensures var info := t[ref.schema][ref.table];
            AddColumns(t, rows)[ref.schema][ref.table] ==
              info.(columns := info.columns + ColumnsFor(rows, ref))
    decreases |rows|
  {
    if rows != [] {
      var n := |rows| - 1;
      AllResolvePrefix(t, rows, n, ColumnRef);
      AddColumnsAt(t, rows[..n], ref);
      var pre := AddColumns(t, rows[..n]);
      assert HasTable(pre, ColumnRef(rows[n]));
      AppendColumnAt(pre, rows[n], ref);
      var info := t[ref.schema][ref.table];
      var before := ColumnsFor(rows[..n], ref);
      if ColumnRef(rows[n]) == ref {
        assert info.columns + before + [ColumnOf(rows[n])] == info.columns + (before + [ColumnOf(rows[n])]);
      }
    }
  }

  // ---------------------------------------------------------------------
  // Constraints
  // ---------------------------------------------------------------------

  /** The list a constraint is appended to: a missing or empty list is
      replaced by a fresh empty one, a non-empty list is kept. */
  function ExistingConstraints(info: TableInfo): seq<Constraint> {
    if info.constraints.None? || info.constraints.value == [] then [] else info.constraints.value
  }

  /** One pass of the constraints loop. */
  function AppendConstraint(t: Tree, row: ConstraintRow): Tree
    requires HasTable(t, ConstraintRef(row))
  {
    var info := t[row.schema][row.table];
    var info' := info.(constraints := Some(ExistingConstraints(info) + [ConstraintOf(row)]));
    t[row.schema := t[row.schema][row.table := info']]
  }

  /** The constraints loop over rows that all name present tables. It adds no
      schema and no table. */
  function AddConstraints(t: Tree, rows: seq<ConstraintRow>): (r: Tree)
    requires AllResolve(t, rows, ConstraintRef)
    ensures SameTables(t, r)
    decreases |rows|
  {
    if rows == [] then t
    else
      var n := |rows| - 1;
      AllResolvePrefix(t, rows, n, ConstraintRef);
      AppendConstraint(AddConstraints(t, rows[..n]), rows[n])
  }

  /** The constraints fold over one more row is one more pass of the loop. */
  lemma AddConstraintsStep(t: Tree, rows: seq<ConstraintRow>, i: nat)
    requires i < |rows| && AllResolve(t, rows[..i + 1], ConstraintRef)
    ensures AllResolve(t, rows[..i], ConstraintRef)
    ensures HasTable(AddConstraints(t, rows[..i]), ConstraintRef(rows[i]))
    ensures AddConstraints(t, rows[..i + 1]) == AppendConstraint(AddConstraints(t, rows[..i]), rows[i])
  {
    assert rows[..i + 1][..i] == rows[..i];
    AllResolvePrefix(t, rows[..i + 1], i, ConstraintRef);
  }

  /** What one pass of the constraints loop finds at row i, given that rows
      before it were applied. */
  lemma ConstraintsLoopStep(t: Tree, rows: seq<ConstraintRow>, i: nat, cur: Tree)
    requires i < |rows| && i <= FirstUnresolved(t, rows, ConstraintRef)
    requires AllResolve(t, rows[..i], ConstraintRef) && cur == AddConstraints(t, rows[..i])
    ensures HasTable(cur, ConstraintRef(rows[i])) <==> i < FirstUnresolved(t, rows, ConstraintRef)
    ensures !HasTable(cur, ConstraintRef(rows[i])) ==> MissingKey(cur, ConstraintRef(rows[i])) == MissingKey(t, ConstraintRef(rows[i]))
    ensures HasTable(cur, ConstraintRef(rows[i])) ==>
              AllResolve(t, rows[..i + 1], ConstraintRef) &&
              AddConstraints(t, rows[..i + 1]) == AppendConstraint(cur, rows[i])
  {
    var k := FirstUnresolved(t, rows, ConstraintRef);
    assert forall j :: 0 <= j < k ==> rows[..k][j] == rows[j];
    if i < k {
      assert rows[..k][..i + 1] == rows[..i + 1];
      AllResolvePrefix(t, rows[..k], i + 1, ConstraintRef);
      AddConstraintsStep(t, rows, i);
    }
  }

  /** The records of the constraint rows that name `ref`, in row order. */
  function ConstraintsFor(rows: seq<ConstraintRow>, ref: TableRef): seq<Constraint>
    decreases |rows|
  {
    if rows == [] then []
    else
      var n := |rows| - 1;
      ConstraintsFor(rows[..n], ref) + if ConstraintRef(rows[n]) == ref then [ConstraintOf(rows[n])] else []
  }

  /** The constraint records of `a + b` are those of `a` followed by those of `b`: one
      record per row, kept in row order. */
  lemma {:induction false} ConstraintsForConcat(a: seq<ConstraintRow>, b: seq<ConstraintRow>, ref: TableRef)
    ensures ConstraintsFor(a + b, ref) == ConstraintsFor(a, ref) + ConstraintsFor(b, ref)
    decreases |b|
  {
    if b == [] {
      assert a + b == a;
    } else {
      var n := |b| - 1;
      assert (a + b)[..|a + b| - 1] == a + b[..n];
      ConstraintsForConcat(a, b[..n], ref);
    }
  }

  /** No constraint record for a table exactly when no row names it. */
  lemma {:induction false} ConstraintsForEmpty(rows: seq<ConstraintRow>, ref: TableRef)
    ensures ConstraintsFor(rows, ref) == [] <==> forall i :: 0 <= i < |rows| ==> ConstraintRef(rows[i]) != ref
    decreases |rows|
  {
    if rows != [] {
      var n := |rows| - 1;
      ConstraintsForEmpty(rows[..n], ref);
      assert forall i :: 0 <= i < n ==> rows[..n][i] == rows[i];
    }
  }

  /** One pass of the constraints loop seen from one table. */
  lemma AppendConstraintAt(t: Tree, row: ConstraintRow, ref: TableRef)
    requires HasTable(t, ConstraintRef(row)) && HasTable(t, ref)
    ensures HasTable(AppendConstraint(t, row), ref)
    ensures var info := t[ref.schema][ref.table];
            AppendConstraint(t, row)[ref.schema][ref.table] ==
              if ConstraintRef(row) == ref
              then info.(constraints := Some(ExistingConstraints(info) + [ConstraintOf(row)]))
              else info
  {
  }

  /** After the constraints loop, a table no row names is untouched (in
      particular it gains no constraints key); a table some rows name has a
      constraints list made of its old non-empty list, if any, followed by
      one record per such row, in row order; nothing else of it changes. */
  lemma {:induction false} AddConstraintsAt(t: Tree, rows: seq<ConstraintRow>, ref: TableRef)
    requires AllResolve(t, rows, ConstraintRef)
    requires HasTable(t, ref)
    ensures HasTable(AddConstraints(t, rows), ref)
    ensures var info := t[ref.schema][ref.table];
            AddConstraints(t, rows)[ref.schema][ref.table] ==
              if ConstraintsFor(rows, ref) == [] then info
              else info.(constraints := Some(ExistingConstraints(info) + ConstraintsFor(rows, ref)))
    decreases |rows|
  {
    if rows != [] {
      var n := |rows| - 1;
      AllResolvePrefix(t, rows, n, ConstraintRef);
      AddConstraintsAt(t, rows[..n], ref);
      var pre := AddConstraints(t, rows[..n]);
      assert HasTable(pre, ConstraintRef(rows[n]));
      AppendConstraintAt(pre, rows[n], ref);
      var info := t[ref.schema][ref.table];
      var before := ConstraintsFor(rows[..n], ref);
      if ConstraintRef(rows[n]) == ref {
        var c := ConstraintOf(rows[n]);
        assert ConstraintsFor(rows, ref) == before + [c];
        if before != [] {
          assert ExistingConstraints(pre[ref.schema][ref.table]) == ExistingConstraints(info) + before;
          assert ExistingConstraints(info) + before + [c] == ExistingConstraints(info) + (before + [c]);
        } else {
          assert before + [c] == [c];
        }
      } else {
        assert ConstraintsFor(rows, ref) == before;
      }
    }
  }

  // ---------------------------------------------------------------------
  // The whole database
  // ---------------------------------------------------------------------

  /** `info.get(key, default)`: the default stands in only for an absent key. */
  function Get(info: map<string, Option<string>>, key: string, default: Option<string>): Option<string> {
    if key in info then info[key] else default
  }

  /** The metadata header: each key present in `info` is copied, even when it
      holds NULL or the empty string; an absent kind reads
      "IMPORTED DATABASE", an absent owner or comment the empty string. */
  function MetadataOf(info: map<string, Option<string>>): (m: Metadata)
    ensures "kind" in info ==> m.kind == info["kind"]
    ensures "kind" !in info ==> m.kind == Some("IMPORTED DATABASE")
    ensures "owner" in info ==> m.owner == info["owner"]
    ensures "owner" !in info ==> m.owner == Some("")
    ensures "comment" in info ==> m.comment == info["comment"]
    ensures "comment" !in info ==> m.comment == Some("")
  {
    Metadata(Get(info, "kind", Some("IMPORTED DATABASE")), Get(info, "owner", Some("")), Get(info, "comment", Some("")))
  }

  /** Tables, then columns, then constraints, into an initially empty tree;
      the first failing lookup aborts the whole structure. */
  function BuildStructure(info: map<string, Option<string>>, tables: seq<TableRow>,
                          columns: seq<ColumnRow>, constraints: seq<ConstraintRow>)
    : Result<DatabaseStructure, KeyError>
  {
    var withTables := AddTables(map[], tables);
    var k := FirstUnresolved(withTables, columns, ColumnRef);
    if k < |columns| then Err(MissingKey(withTables, ColumnRef(columns[k])))
    else
      var withColumns := AddColumns(withTables, columns);
      var j := FirstUnresolved(withColumns, constraints, ConstraintRef);
      if j < |constraints| then Err(MissingKey(withColumns, ConstraintRef(constraints[j])))
      else Ok(DatabaseStructure(MetadataOf(info), AddConstraints(withColumns, constraints)))
  }

  /** Starting from an empty tree, a table is present after the tables loop
      exactly when some table row declares it. */
  lemma DeclaredAfterTables(tables: seq<TableRow>, ref: TableRef)
    ensures HasTable(AddTables(map[], tables), ref) <==> Declared(tables, ref)
  {
    AddTablesAt(map[], tables, ref);
  }

  /** Every row names a declared table. */
  predicate AllDeclared<R>(tables: seq<TableRow>, rows: seq<R>, ref: R -> TableRef) {
    forall i :: 0 <= i < |rows| ==> Declared(tables, ref(rows[i]))
  }

  /** Row k is the first row that names an undeclared table. */
  predicate FirstUndeclared<R>(tables: seq<TableRow>, rows: seq<R>, ref: R -> TableRef, k: int) {
    && 0 <= k < |rows|
    && !Declared(tables, ref(rows[k]))
    && forall i :: 0 <= i < k ==> Declared(tables, ref(rows[i]))
  }

  /** Some table row names schema `s`. */
  predicate SchemaDeclared(tables: seq<TableRow>, s: string) {
    exists i :: 0 <= i < |tables| && tables[i].schema == s
  }

  /** Starting from an empty tree, a schema is present after the tables loop
      exactly when some table row names it. */
  lemma SchemasAfterTables(tables: seq<TableRow>)
    ensures forall s :: s in AddTables(map[], tables) <==> SchemaDeclared(tables, s)
  {
    forall s ensures s in AddTables(map[], tables) <==> SchemaDeclared(tables, s) {
      AddTablesAt(map[], tables, TableRef(s, ""));
    }
  }

  /** The KeyError a failed lookup of `ref` raises once the tables are in:
      the schema name when no table row names the schema, else the table
      name. */
  predicate Reports(e: KeyError, tables: seq<TableRow>, ref: TableRef) {
    e.key == if SchemaDeclared(tables, ref.schema) then ref.table else ref.schema
  }

  /** Against a tree whose tables are exactly the declared ones, the first
      failing lookup is at the first row naming an undeclared table. */
  lemma {:induction false} UnresolvedIsUndeclared<R>(t: Tree, tables: seq<TableRow>, rows: seq<R>, ref: R -> TableRef)
    requires forall s :: s in t <==> SchemaDeclared(tables, s)
    requires forall r: TableRef :: HasTable(t, r) <==> Declared(tables, r)
    ensures FirstUnresolved(t, rows, ref) == |rows| <==> AllDeclared(tables, rows, ref)
    ensures var k := FirstUnresolved(t, rows, ref);
            k < |rows| ==> FirstUndeclared(tables, rows, ref, k) && Reports(MissingKey(t, ref(rows[k])), tables, ref(rows[k]))
  {
    var k := FirstUnresolved(t, rows, ref);
    assert forall i :: 0 <= i < k ==> rows[..k][i] == rows[i];
  }

  /** Building succeeds exactly when every column row and every constraint
      row names a table that some table row declares. */
  lemma {:induction false} BuildStructureSucceeds(info: map<string, Option<string>>, tables: seq<TableRow>,
                                                  columns: seq<ColumnRow>, constraints: seq<ConstraintRow>)
    ensures BuildStructure(info, tables, columns, constraints).Ok? <==>
              AllDeclared(tables, columns, ColumnRef) && AllDeclared(tables, constraints, ConstraintRef)
  {
    var withTables := AddTables(map[], tables);
    forall r: TableRef ensures HasTable(withTables, r) <==> Declared(tables, r) {
      DeclaredAfterTables(tables, r);
    }
    SchemasAfterTables(tables);
    UnresolvedIsUndeclared(withTables, tables, columns, ColumnRef);
    if FirstUnresolved(withTables, columns, ColumnRef) == |columns| {
      var withColumns := AddColumns(withTables, columns);
      assert forall r: TableRef :: HasTable(withColumns, r) <==> HasTable(withTables, r);
      assert forall s :: s in withColumns <==> s in withTables;
      UnresolvedIsUndeclared(withColumns, tables, constraints, ConstraintRef);
    }
  }

  /** A failed build reports the first row that names an undeclared table (a
      column row when there is one, otherwise a constraint row): its schema
      name when no table row names that schema, else its table name. */
  lemma {:induction false} BuildStructureFails(info: map<string, Option<string>>, tables: seq<TableRow>,
                                               columns: seq<ColumnRow>, constraints: seq<ConstraintRow>)
    requires BuildStructure(info, tables, columns, constraints).Err?
    ensures var e := BuildStructure(info, tables, columns, constraints).error;
            || (exists k :: FirstUndeclared(tables, columns, ColumnRef, k) && Reports(e, tables, ColumnRef(columns[k])))
            || (&& AllDeclared(tables, columns, ColumnRef)
                && exists k :: FirstUndeclared(tables, constraints, ConstraintRef, k) && Reports(e, tables, ConstraintRef(constraints[k])))
  {
    var withTables := AddTables(map[], tables);
    forall r: TableRef ensures HasTable(withTables, r) <==> Declared(tables, r) {
      DeclaredAfterTables(tables, r);
    }
    SchemasAfterTables(tables);
    UnresolvedIsUndeclared(withTables, tables, columns, ColumnRef);
    var k := FirstUnresolved(withTables, columns, ColumnRef);
    if k == |columns| {
      var withColumns := AddColumns(withTables, columns);
      assert forall r: TableRef :: HasTable(withColumns, r) <==> HasTable(withTables, r);
      assert forall s :: s in withColumns <==> s in withTables;
      UnresolvedIsUndeclared(withColumns, tables, constraints, ConstraintRef);
    }
  }

  /** The contents of a successfully built structure: its metadata header,
      and for every table: present exactly when a table row declares it, and
      then holding the last declaring row's type, owner and comment, exactly
      the column records of the rows naming it, in order, and a constraints
      list only when some constraint row names it, holding exactly those
      records, in order. */
  lemma {:induction false} StructureAt(info: map<string, Option<string>>, tables: seq<TableRow>,
                                       columns: seq<ColumnRow>, constraints: seq<ConstraintRow>, ref: TableRef)
    requires BuildStructure(info, tables, columns, constraints).Ok?
    ensures var s := BuildStructure(info, tables, columns, constraints).value;
            && s.metadata == MetadataOf(info)
            && (ref.schema in s.schemas <==> exists i :: 0 <= i < |tables| && tables[i].schema == ref.schema)
            && (HasTable(s.schemas, ref) <==> Declared(tables, ref))
            && (HasTable(s.schemas, ref) ==>
                  s.schemas[ref.schema][ref.table] ==
                    NewTable(LastRow(tables, ref).value).(
                      columns := ColumnsFor(columns, ref),
                      constraints := if ConstraintsFor(constraints, ref) == [] then None
                                     else Some(ConstraintsFor(constraints, ref))))
  {
    var withTables := AddTables(map[], tables);
    assert FirstUnresolved(withTables, columns, ColumnRef) == |columns|;
    var withColumns := AddColumns(withTables, columns);
    assert FirstUnresolved(withColumns, constraints, ConstraintRef) == |constraints|;
    var done := AddConstraints(withColumns, constraints);
    assert BuildStructure(info, tables, columns, constraints) == Ok(DatabaseStructure(MetadataOf(info), done));
    AddTablesAt(map[], tables, ref);
    assert ref.schema in done <==> ref.schema in withTables;
    assert HasTable(done, ref) <==> HasTable(withTables, ref);
    if HasTable(withTables, ref) {
      var entry := NewTable(LastRow(tables, ref).value);
      assert withTables[ref.schema][ref.table] == entry;
      AddColumnsAt(withTables, columns, ref);
      assert withColumns[ref.schema][ref.table] == entry.(columns := ColumnsFor(columns, ref));
      AddConstraintsAt(withColumns, constraints, ref);
      var cs := ConstraintsFor(constraints, ref);
      assert ExistingConstraints(withColumns[ref.schema][ref.table]) == [];
      if cs == [] {
        assert done[ref.schema][ref.table] == entry.(columns := ColumnsFor(columns, ref));
      } else {
        assert [] + cs == cs;
        assert done[ref.schema][ref.table] == entry.(columns := ColumnsFor(columns, ref), constraints := Some(cs));
      }
    }
  }
}
