/** Adding, dropping and modifying the columns of an in-memory table, from memory/table.go. */
module TableDdl {
  import opened Wrappers
  import opened Expressions
  import opened Defaults
  import opened TableReads

  /** Where a column goes; Unordered is the nil order. */
  datatype Order = Unordered | First | After(column: string)

  /**
   The schema of a table. A table without columns that is given one without a place for it ends up
   with a schema of one nil pointer. Where there are columns already, the code panics instead.
   */
  datatype Schema = Columns(columns: seq<Column>) | OneNil

  datatype Op =
    | Add(column: Column, order: Order)
    | Drop(name: string)
    | Modify(name: string, column: Column, order: Order)

  function Names(schema: seq<Column>): seq<string> {
    seq(|schema|, i requires 0 <= i < |schema| => schema[i].name)
  }

  predicate Unique(names: seq<string>) {
    forall i, j :: 0 <= i < j < |names| ==> names[i] != names[j]
  }

  function Find(names: seq<string>, name: string): (r: Option<nat>)
    ensures r.Some? ==> r.value < |names| && names[r.value] == name
    ensures r.Some? <==> name in names
  {
    IndexOf(s => s, names, name)
  }

  function InsertAt<T>(s: seq<T>, i: nat, x: T): seq<T>
    requires i <= |s|
  {
    s[..i] + [x] + s[i..]
  }

  function RemoveAt<T>(s: seq<T>, i: nat): seq<T>
    requires i < |s|
  {
    s[..i] + s[i + 1..]
  }

  // ---------------------------------------------------------------- the schema

  function ReindexNode(fold: string -> string, names: seq<string>, e: Expr): Expr {
    if e.GetField? then
      match IndexOf(fold, names, e.name)
      case Some(i) => GetField(i, e.table, e.name)
      case None => GetField(-1, e.table, e.name)
    else e
  }

  /** Points every column reference of a default at the column of that name. */
  function Reindex(fold: string -> string, names: seq<string>, d: Default): Default {
    if d.Implicit? then d
    else
      match TransformUp(d.expr, e => Ok(ReindexNode(fold, names, e)))
      case Ok(e) => d.(expr := e)
      case Err(_) => d
  }

  function ReindexAll(fold: string -> string, names: seq<string>, schema: seq<Column>): seq<Column> {
    seq(|schema|, i requires 0 <= i < |schema| => schema[i].(default := Reindex(fold, names, schema[i].default)))
  }

  /** Where a new column goes; None where there is no place for it. */
  function Position(names: seq<string>, order: Order): (r: Option<nat>)
    ensures r.Some? ==> r.value <= |names|
  {
    match order
    case Unordered => if names == [] then None else Some(|names|)
    case First => Some(0)
    case After(n) => match Find(names, n) case None => None case Some(i) => Some(i + 1)
  }

  /** The schema with a new column; the defaults of all the others are re-indexed. */
  function Added(fold: string -> string, schema: seq<Column>, column: Column, at: nat): seq<Column>
    requires at <= |schema|
  {
    InsertAt(ReindexAll(fold, InsertAt(Names(schema), at, column.name), schema), at, column)
  }

  /** The order in which ModifyColumn puts the column back. */
  function PutBack(names: seq<string>, from: nat, order: Order): Order
    requires from < |names|
  {
    if order != Unordered then order else if from == 0 then First else After(names[from - 1])
  }

  /** The position a modified column gets among the others. */
  function Target(names: seq<string>, from: nat, order: Order): Option<nat>
    requires from < |names|
  {
    Position(RemoveAt(names, from), PutBack(names, from, order))
  }

  /** addColumnToSchema; None where it panics. */
  function AddedSchema(fold: string -> string, schema: seq<Column>, column: Column, order: Order): Option<Schema> {
    match Position(Names(schema), order)
    case Some(at) => Some(Columns(Added(fold, schema, column, at)))
    case None => if schema == [] then Some(OneNil) else None
  }

  /** The schema an operation leaves; None where it panics. */
  function SchemaStep(fold: string -> string, schema: seq<Column>, op: Op): Option<Schema> {
    var names := Names(schema);
    match op
    case Add(column, order) => AddedSchema(fold, schema, column, order)
    case Drop(name) =>
      (match Find(names, name)
       case None => None
       case Some(at) => Some(Columns(RemoveAt(schema, at))))
    case Modify(name, column, order) =>
      match Find(names, name)
      case None => None
      case Some(from) => AddedSchema(fold, RemoveAt(schema, from), column, PutBack(names, from, order))
  }

  // ---------------------------------------------------------------- the rows

  function InsertRow(lib: Library, at: nat, d: Default, row: Row): Result<Row, Error> {
    if at > |row| then Err(IndexOutOfBounds)
    else
      match EvalDefault(lib, d, InsertAt(row, at, Null))
      case Err(x) => Err(x)
      case Ok(v) => Ok(InsertAt(row, at, v))
  }

  function DropRow(at: nat, row: Row): Result<Row, Error> {
    if at < |row| then Ok(RemoveAt(row, at)) else Err(IndexOutOfBounds)
  }

  function ModifyRow(convert: Conversion, from: nat, to: nat, row: Row): Result<Row, Error> {
    if from < |row| && to < |row| then
      match convert(row[from])
      case Err(x) => Err(x)
      case Ok(v) => Ok(InsertAt(RemoveAt(row, from), to, v))
    else Err(IndexOutOfBounds)
  }

  /** The position that the code takes for a column: the first where there is no place for it. */
  function PositionOrFirst(names: seq<string>, order: Order): nat {
    match Position(names, order) case None => 0 case Some(at) => at
  }

  /** What an operation makes of one row. */
  function RowStep(lib: Library, schema: seq<Column>, op: Op, row: Row): Result<Row, Error> {
    var names := Names(schema);
    match op
    case Add(column, order) => InsertRow(lib, PositionOrFirst(names, order), column.default, row)
    case Drop(name) =>
      (match Find(names, name)
       case None => Err(IndexOutOfBounds)
       case Some(at) => DropRow(at, row))
    case Modify(name, column, order) =>
      match Find(names, name)
      case None => Err(IndexOutOfBounds)
      case Some(from) =>
        ModifyRow(column.convert, from, PositionOrFirst(RemoveAt(names, from), PutBack(names, from, order)), row)
  }

  // ---------------------------------------------------------------- the table

  datatype Outcome = Success | Panicked | RowFailed(error: Error)

  ghost predicate Rewritten(f: Row -> Result<Row, Error>, before: seq<Row>, after: seq<Row>) {
    |before| == |after| && forall i :: 0 <= i < |before| ==> f(before[i]) == Ok(after[i])
  }

  /** Every name finds its own column. */
  lemma FindUnique(names: seq<string>, i: nat)
    requires Unique(names) && i < |names|
    ensures Find(names, names[i]) == Some(i)
  {
  }

  /** Without an order, a modified column stays where it is. */
  lemma StaysInPlace(names: seq<string>, from: nat)
    requires Unique(names) && from < |names|
    ensures Target(names, from, Unordered) == Some(from)
  {
    if from > 0 {
      var rest := RemoveAt(names, from);
      assert Unique(rest) && rest[from - 1] == names[from - 1];
      FindUnique(rest, from - 1);
    }
  }

  /** The names an operation brings in are not taken. */
  predicate NewName(names: seq<string>, op: Op) {
    match op
    case Add(column, _) => column.name !in names
    case Drop(_) => true
    case Modify(name, column, _) => column.name == name || column.name !in names
  }

  /** Every row of every partition is the row the operation makes of the one at its place. */
  ghost predicate RowsStep(lib: Library, schema: seq<Column>, op: Op, before: map<string, seq<Row>>, after: map<string, seq<Row>>) {
    && before.Keys == after.Keys
    && (forall k :: k in before ==> |before[k]| == |after[k]|)
    && (forall k, i :: k in before && 0 <= i < |before[k]| ==> RowStep(lib, schema, op, before[k][i]) == Ok(after[k][i]))
  }

  /** The operation has a place for its column and succeeds on every row. */
  ghost predicate Possible(lib: Library, fold: string -> string, schema: seq<Column>, op: Op, rows: map<string, seq<Row>>) {
    && SchemaStep(fold, schema, op).Some?
    && (forall k, i :: k in rows && 0 <= i < |rows[k]| ==> RowStep(lib, schema, op, rows[k][i]).Ok?)
  }

  /** The operation fails on some row with this error. */
  ghost predicate FailsOnRow(lib: Library, schema: seq<Column>, op: Op, rows: map<string, seq<Row>>, x: Error) {
    exists k, i :: k in rows && 0 <= i < |rows[k]| && RowStep(lib, schema, op, rows[k][i]) == Err(x)
  }

  ghost predicate Performed(lib: Library, fold: string -> string, schema: seq<Column>, rows: map<string, seq<Row>>, op: Op,
                            schema': Schema, rows': map<string, seq<Row>>) {
    SchemaStep(fold, schema, op) == Some(schema') && RowsStep(lib, schema, op, rows, rows')
  }

  /** Column names are unique and every row has one value for each place of the schema. */
  ghost predicate Fits(schema: Schema, rows: map<string, seq<Row>>) {
    && (schema.Columns? ==> Unique(Names(schema.columns)))
    && forall k, i :: k in rows && 0 <= i < |rows[k]| ==> |rows[k][i]| == Width(schema)
  }

  function Width(schema: Schema): nat {
    if schema.Columns? then |schema.columns| else 1
  }

  class Table {
    const lib: Library
    const fold: string -> string
    var schema: Schema
    var partitions: map<string, seq<Row>>

    ghost predicate Aligned()
      reads this
    {
      Fits(schema, partitions)
    }

    constructor (lib: Library, fold: string -> string, columns: seq<Column>, keys: set<string>)
      requires Unique(Names(columns))
      ensures Aligned() && this.schema == Columns(columns) && this.lib == lib && this.fold == fold
      ensures partitions == map k | k in keys :: []
    {
      this.lib := lib;
      this.fold := fold;
      this.schema := Columns(columns);
      partitions := map k | k in keys :: [];
    }

    /** The index of the new column; None where the code panics, which leaves the schema as it is. */
    method AddColumnToSchema(column: Column, order: Order) returns (at: Option<nat>)
      requires schema.Columns? && Unique(Names(schema.columns))
      modifies this`schema
      ensures var before := old(schema).columns;
              match AddedSchema(fold, before, column, order)
              case None => at == None && schema == old(schema)
              case Some(after) => at == Some(PositionOrFirst(Names(before), order)) && schema == after
    {
      var before := schema.columns;
      var newSch, newColIdx := PlaceColumn(before, column, order);
      if |newSch| == |before| + 1 {
        var reindexed := ReindexOthers(fold, newSch, newColIdx);
        AddedByIndex(fold, before, column, newColIdx, newSch, reindexed);
        schema := Columns(reindexed);
        return Some(newColIdx);
      }
      // The last place of the new schema holds nil, and the re-indexing looks at every place but newColIdx.
      if |before| != newColIdx {
        return None;
      }
      schema := OneNil;
      return Some(newColIdx);
    }

    /** Runs a change over the rows, partition by partition in any order, up to the first row on which it fails. */
    method RewriteRows(f: Row -> Result<Row, Error>) returns (err: Option<Error>)
      modifies this`partitions
      ensures partitions.Keys == old(partitions).Keys
      ensures err.None? ==> forall k :: k in partitions ==> Rewritten(f, old(partitions)[k], partitions[k])
      ensures err.Some? ==> forall k :: k in partitions ==>
                                          partitions[k] == old(partitions)[k] || Rewritten(f, old(partitions)[k], partitions[k])
      ensures err.Some? ==> exists k, i :: k in old(partitions) && 0 <= i < |old(partitions)[k]| && f(old(partitions)[k][i]) == Err(err.value)
    {
      var todo := partitions.Keys;
      while todo != {}
        invariant partitions.Keys == old(partitions).Keys && todo <= partitions.Keys
        invariant forall k :: k in partitions && k in todo ==> partitions[k] == old(partitions)[k]
        invariant forall k :: k in partitions && k !in todo ==> Rewritten(f, old(partitions)[k], partitions[k])
      {
        var k :| k in todo;
        var p := partitions[k];
        var newP := [];
        for i := 0 to |p|
          invariant Rewritten(f, p[..i], newP)
        {
          var r := f(p[i]);
          if r.Err? {
            return Some(r.error);
          }
          newP := newP + [r.value];
        }
        partitions := partitions[k := newP];
        todo := todo - {k};
      }
      return None;
    }

    method AddColumn(column: Column, order: Order) returns (r: Outcome)
      requires Aligned() && (schema.Columns? ==> NewName(Names(schema.columns), Add(column, order)))
      modifies this
      ensures r.Success? <==> old(schema).Columns? && Possible(lib, fold, old(schema).columns, Add(column, order), old(partitions))
      ensures r.Panicked? <==> old(schema).OneNil? || SchemaStep(fold, old(schema).columns, Add(column, order)).None?
      ensures r.RowFailed? ==> FailsOnRow(lib, old(schema).columns, Add(column, order), old(partitions), r.error)
      ensures r.Success? ==>
                Aligned() && Performed(lib, fold, old(schema).columns, old(partitions), Add(column, order), schema, partitions)
    {
      if schema.OneNil? {
        return Panicked;
      }
      var at := AddColumnToSchema(column, order);
      if at.None? {
        return Panicked;
      }
      var err := RewriteRows(row => InsertRow(lib, at.value, column.default, row));
      if err.Some? {
        return RowFailed(err.value);
      }
      StepAligns(lib, fold, old(schema).columns, old(partitions), Add(column, order), schema, partitions);
      r := Success;
    }

    method DropColumnFromSchema(name: string) returns (at: Option<nat>)
      requires schema.Columns? && Unique(Names(schema.columns))
      modifies this`schema
      ensures var before := old(schema).columns;
              && at == Find(Names(before), name)
              && schema == if at.Some? then Columns(RemoveAt(before, at.value)) else old(schema)
    {
      var newSch;
      newSch, at := WithoutColumn(schema.columns, name);
      schema := Columns(newSch);
    }

    method DropColumn(name: string) returns (r: Outcome)
      requires Aligned()
      modifies this
      ensures r.Success? <==> old(schema).Columns? && Possible(lib, fold, old(schema).columns, Drop(name), old(partitions))
      ensures r.Panicked? <==> old(schema).OneNil? || SchemaStep(fold, old(schema).columns, Drop(name)).None?
      ensures r.RowFailed? ==> FailsOnRow(lib, old(schema).columns, Drop(name), old(partitions), r.error)
      ensures r.Success? ==> Aligned() && Performed(lib, fold, old(schema).columns, old(partitions), Drop(name), schema, partitions)
    {
      if schema.OneNil? {
        return Panicked;
      }
      var at := DropColumnFromSchema(name);
      if at.None? {
        return Panicked;
      }
      var err := RewriteRows(row => DropRow(at.value, row));
      if err.Some? {
        return RowFailed(err.value);
      }
      StepAligns(lib, fold, old(schema).columns, old(partitions), Drop(name), schema, partitions);
      r := Success;
    }

    method ModifyColumn(name: string, column: Column, order: Order) returns (r: Outcome)
      requires Aligned() && (schema.Columns? ==> NewName(Names(schema.columns), Modify(name, column, order)))
      modifies this
      ensures r.Success? <==>
              old(schema).Columns? && Possible(lib, fold, old(schema).columns, Modify(name, column, order), old(partitions))
      ensures old(schema).OneNil? || name !in Names(old(schema).columns) ==> r.Panicked?
      ensures r.RowFailed? ==> FailsOnRow(lib, old(schema).columns, Modify(name, column, order), old(partitions), r.error)
      ensures r.Success? ==>
                Aligned() && Performed(lib, fold, old(schema).columns, old(partitions), Modify(name, column, order), schema, partitions)
    {
      if schema.OneNil? {
        return Panicked;
      }
      var names := Names(schema.columns);
      var oldIdx := Find(names, name);
      if oldIdx.None? {
        return Panicked;
      }
      var from := oldIdx.value;
      var newIdx, newOrder := NewPlace(names, from, order);
      var err := RewriteRows(row => ModifyRow(column.convert, from, newIdx, row));
      if err.Some? {
        return RowFailed(err.value);
      }
      NamesRemove(schema.columns, from);
      UniqueRemove(names, from);
      var _ := DropColumnFromSchema(name);
      var at := AddColumnToSchema(column, newOrder);
      if at.None? {
        return Panicked;
      }
      StepAligns(lib, fold, old(schema).columns, old(partitions), Modify(name, column, order), schema, partitions);
      r := Success;
    }
  }

  /** The operation has a place for its column among others, or asks for none. */
  predicate Placed(names: seq<string>, op: Op) {
    match op
    case Add(_, order) => Position(names, order).Some?
    case Drop(_) => true
    case Modify(name, _, order) =>
      var from := Find(names, name);
      from.Some? ==> Target(names, from.value, order).Some?
  }

  /**
   An operation that succeeds leaves columns, the new one among them, exactly when it had a place for
   the new column. Adding has one where the table has a column already or the column goes first;
   modifying has one where there is another column or it is not asked to follow one. Otherwise the
   schema is left with nothing but a nil pointer.
   */
  lemma PlacedIff(fold: string -> string, schema: seq<Column>, op: Op)
    requires Unique(Names(schema)) && SchemaStep(fold, schema, op).Some?
    ensures SchemaStep(fold, schema, op).value.Columns? <==> Placed(Names(schema), op)
    ensures op.Add? ==> (Placed(Names(schema), op) <==> schema != [] || op.order == First)
    ensures op.Modify? ==> (Placed(Names(schema), op) <==> |schema| > 1 || !op.order.After?)
    ensures SchemaStep(fold, schema, op).value.Columns? && !op.Drop? ==> op.column in SchemaStep(fold, schema, op).value.columns
  {
    var names := Names(schema);
    match op
    case Add(column, order) => AddedPlaced(fold, schema, column, order);
    case Drop(_) =>
    case Modify(name, column, order) =>
      var from := Find(names, name).value;
      NamesRemove(schema, from);
      AddedPlaced(fold, RemoveAt(schema, from), column, PutBack(names, from, order));
      StaysInPlace(names, from);
  }

  lemma AddedPlaced(fold: string -> string, schema: seq<Column>, column: Column, order: Order)
    requires AddedSchema(fold, schema, column, order).Some?
    ensures AddedSchema(fold, schema, column, order).value.Columns? <==> Position(Names(schema), order).Some?
    ensures Position(Names(schema), order).Some? <==> schema != [] || order == First
    ensures AddedSchema(fold, schema, column, order).value.Columns? ==> column in AddedSchema(fold, schema, column, order).value.columns
  {
    var at := Position(Names(schema), order);
    if at.Some? {
      assert Added(fold, schema, column, at.value)[at.value] == column;
    }
  }

  /** Dropping the only column of a table and adding another without an order succeeds, and the table has no column. */
  method AddToEmptyTable(lib: Library, fold: string -> string, keys: set<string>, only: Column, column: Column)
    returns (t: Table, r: Outcome)
    ensures fresh(t) && r.Success? && t.schema == OneNil
  {
    t := new Table(lib, fold, [only], keys);
    assert Names([only]) == [only.name];
    FindUnique(Names([only]), 0);
    assert RemoveAt([only], 0) == [];
    assert SchemaStep(fold, [only], Drop(only.name)) == Some(Columns([]));
    r := t.DropColumn(only.name);
    assert forall k :: k in t.partitions ==> t.partitions[k] == [];
    assert Position(Names([]), Unordered) == None;
    assert SchemaStep(fold, [], Add(column, Unordered)) == Some(OneNil);
    r := t.AddColumn(column, Unordered);
  }

  lemma StepAligns(lib: Library, fold: string -> string, schema: seq<Column>, rows: map<string, seq<Row>>, op: Op,
                   schema': Schema, rows': map<string, seq<Row>>)
    requires Fits(Columns(schema), rows) && NewName(Names(schema), op)
    requires Performed(lib, fold, schema, rows, op, schema', rows')
    ensures Fits(schema', rows')
  {
    if schema'.Columns? {
      StepUnique(fold, schema, op);
    }
    forall k, i | k in rows' && 0 <= i < |rows'[k]| ensures |rows'[k][i]| == Width(schema') {
      StepWidth(lib, fold, schema, op, rows[k][i]);
    }
  }

  lemma StepWidth(lib: Library, fold: string -> string, schema: seq<Column>, op: Op, row: Row)
    requires |row| == |schema| && SchemaStep(fold, schema, op).Some? && RowStep(lib, schema, op, row).Ok?
    ensures |RowStep(lib, schema, op, row).value| == Width(SchemaStep(fold, schema, op).value)
  {
  }

  lemma NamesRemove(schema: seq<Column>, at: nat)
    requires at < |schema|
    ensures Names(RemoveAt(schema, at)) == RemoveAt(Names(schema), at)
  {
  }

  lemma NamesAdded(fold: string -> string, schema: seq<Column>, column: Column, at: nat)
    requires at <= |schema|
    ensures Names(Added(fold, schema, column, at)) == InsertAt(Names(schema), at, column.name)
  {
  }

  lemma UniqueInsert(names: seq<string>, at: nat, name: string)
    requires at <= |names| && Unique(names) && name !in names
    ensures Unique(InsertAt(names, at, name))
  {
  }

  lemma UniqueRemove(names: seq<string>, at: nat)
    requires at < |names| && Unique(names)
    ensures Unique(RemoveAt(names, at)) && names[at] !in RemoveAt(names, at)
  {
  }

  lemma StepUnique(fold: string -> string, schema: seq<Column>, op: Op)
    requires Unique(Names(schema)) && NewName(Names(schema), op)
    requires SchemaStep(fold, schema, op).Some? && SchemaStep(fold, schema, op).value.Columns?
    ensures Unique(Names(SchemaStep(fold, schema, op).value.columns))
  {
    var names := Names(schema);
    match op
    case Add(column, order) =>
      var at := Position(names, order).value;
      NamesAdded(fold, schema, column, at);
      UniqueInsert(names, at, column.name);
    case Drop(name) =>
      var at := Find(names, name).value;
      NamesRemove(schema, at);
      UniqueRemove(names, at);
    case Modify(name, column, order) =>
      var from := Find(names, name).value;
      NamesRemove(schema, from);
      var to := Target(names, from, order).value;
      UniqueRemove(names, from);
      NamesAdded(fold, RemoveAt(schema, from), column, to);
      UniqueInsert(RemoveAt(names, from), to, column.name);
  }

  /** The schema as long as no default is touched; it is one column short where the code panics. */
  method PlaceColumn(schema: seq<Column>, column: Column, order: Order) returns (newSch: seq<Column>, newColIdx: nat)
    requires Unique(Names(schema))
    ensures var p := Position(Names(schema), order);
            if p.Some? then newColIdx == p.value && newSch == InsertAt(schema, p.value, column) else newColIdx == 0 && newSch == schema
  {
    ghost var p := Position(Names(schema), order);
    newSch := if order == First then [column] else [];
    newColIdx := 0;
    for i := 0 to |schema|
      invariant newSch == Placing(schema[..i], p, column)
      invariant newColIdx == if p.Some? && p.value <= i then p.value else 0
    {
      assert order == After(schema[i].name) ==> p == Some(i + 1) by {
        assert Names(schema)[i] == schema[i].name;
        FindUnique(Names(schema), i);
      }
      PlacingStep(schema, p, column, i);
      newSch := newSch + [schema[i]];
      if order == After(schema[i].name) || (order == Unordered && |newSch| == |schema|) {
        newColIdx := |newSch|;
        newSch := newSch + [column];
      }
    }
    assert schema[..|schema|] == schema;
  }

  /** The columns copied so far, and the new one if its place is among them. */
  function Placing(schema: seq<Column>, p: Option<nat>, column: Column): seq<Column> {
    if p.Some? && p.value <= |schema| then InsertAt(schema, p.value, column) else schema
  }

  lemma PlacingStep(schema: seq<Column>, p: Option<nat>, column: Column, i: nat)
    requires i < |schema|
    ensures Placing(schema[..i + 1], p, column) ==
            Placing(schema[..i], p, column) + [schema[i]] + if p == Some(i + 1) then [column] else []
  {
    assert schema[..i + 1] == schema[..i] + [schema[i]];
    if p.Some? && p.value <= i {
      assert schema[..i + 1][..p.value] == schema[..i][..p.value];
      assert schema[..i + 1][p.value..] == schema[..i][p.value..] + [schema[i]];
    }
  }

  method WithoutColumn(schema: seq<Column>, name: string) returns (newSch: seq<Column>, droppedCol: Option<nat>)
    requires Unique(Names(schema))
    ensures droppedCol == Find(Names(schema), name)
    ensures newSch == if droppedCol.Some? then RemoveAt(schema, droppedCol.value) else schema
  {
    newSch, droppedCol := [], None;
    ghost var p := Find(Names(schema), name);
    for i := 0 to |schema|
      invariant droppedCol == if p.Some? && p.value < i then p else None
      invariant newSch == Removing(schema[..i], p)
    {
      assert p == Some(i) <==> schema[i].name == name by {
        assert Names(schema)[i] == schema[i].name;
        FindUnique(Names(schema), i);
      }
      RemovingStep(schema, p, i);
      if schema[i].name != name {
        newSch := newSch + [schema[i]];
      } else {
        droppedCol := Some(i);
      }
    }
    assert schema[..|schema|] == schema;
  }

  /** The columns kept so far. */
  function Removing(schema: seq<Column>, p: Option<nat>): seq<Column> {
    if p.Some? && p.value < |schema| then RemoveAt(schema, p.value) else schema
  }

  lemma RemovingStep(schema: seq<Column>, p: Option<nat>, i: nat)
    requires i < |schema|
    ensures Removing(schema[..i + 1], p) == Removing(schema[..i], p) + if p == Some(i) then [] else [schema[i]]
  {
    assert schema[..i + 1] == schema[..i] + [schema[i]];
    if p.Some? && p.value < i {
      assert schema[..i + 1][..p.value] == schema[..i][..p.value];
      assert schema[..i + 1][p.value + 1..] == schema[..i][p.value + 1..] + [schema[i]];
    }
  }

  /** The place ModifyColumn computes for the values, and the order it passes on for the schema. */
  method NewPlace(names: seq<string>, from: nat, order: Order) returns (newIdx: nat, newOrder: Order)
    requires Unique(names) && from < |names|
    ensures newOrder == PutBack(names, from, order)
    ensures newIdx == PositionOrFirst(RemoveAt(names, from), PutBack(names, from, order))
  {
    newIdx, newOrder := 0, order;
    if order == Unordered {
      newIdx := from;
      newOrder := if newIdx == 0 then First else After(names[newIdx - 1]);
      StaysInPlace(names, from);
    } else if order != First {
      var after := Find(RemoveAt(names, from), order.column);
      if after.Some? {
        newIdx := after.value + 1;
      }
    }
  }

  method ReindexOthers(fold: string -> string, schema: seq<Column>, except: nat) returns (r: seq<Column>)
    ensures |r| == |schema|
    ensures forall j :: 0 <= j < |r| ==>
                          r[j] == if j == except then schema[j] else schema[j].(default := Reindex(fold, Names(schema), schema[j].default))
  {
    r := schema;
    var i := 0;
    while i < |schema|
      invariant i <= |schema| == |r| && Names(r) == Names(schema)
      invariant forall j :: i <= j < |r| ==> r[j] == schema[j]
      invariant forall j :: 0 <= j < i ==>
                              r[j] == if j == except then schema[j] else schema[j].(default := Reindex(fold, Names(schema), schema[j].default))
    {
      if i != except {
        r := r[i := r[i].(default := Reindex(fold, Names(r), r[i].default))];
      }
      i := i + 1;
    }
  }

  lemma AddedByIndex(fold: string -> string, schema: seq<Column>, column: Column, at: nat, placed: seq<Column>, r: seq<Column>)
    requires at <= |schema| && placed == InsertAt(schema, at, column) && |r| == |placed|
    requires forall j :: 0 <= j < |r| ==>
                           r[j] == if j == at then placed[j] else placed[j].(default := Reindex(fold, Names(placed), placed[j].default))
    ensures r == Added(fold, schema, column, at)
  {
    NamesInsert(schema, at, column);
  }

  lemma NamesInsert(schema: seq<Column>, at: nat, column: Column)
    requires at <= |schema|
    ensures Names(InsertAt(schema, at, column)) == InsertAt(Names(schema), at, column.name)
  {
  }
}
