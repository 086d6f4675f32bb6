/** When a column change is possible, where it puts its column, and on which rows it fails. */
module ColumnPlaces {
  import opened Wrappers
  import opened Expressions
  import opened Defaults
  import opened TableDdl
  import opened ColumnValues

  // ---------------------------------------------------------------- places

  /** Column `at` is where the order asks for it: at the end, at the start, or right behind the column named. */
  predicate AtPlace(names: seq<string>, order: Order, at: nat) {
    && at < |names|
    && match order
       case Unordered => at == |names| - 1
       case First => at == 0
       case After(n) => at > 0 && names[at - 1] == n
  }

  /** The list with an element put in: it is there, and without it the others stand as before. */
  lemma InsertedIs<T>(s: seq<T>, at: nat, x: T)
    requires at <= |s|
    ensures |InsertAt(s, at, x)| == |s| + 1 && InsertAt(s, at, x)[at] == x && RemoveAt(InsertAt(s, at, x), at) == s
  {
    var t := InsertAt(s, at, x);
    assert t[..at] == s[..at] && t[at + 1..] == s[at..];
    assert s[..at] + s[at..] == s;
  }

  /** The schema has the column at this place, and the others as before. */
  ghost predicate StandsAt(schema: seq<Column>, column: Column, at: nat, others: seq<string>) {
    at < |schema| && schema[at] == column && RemoveAt(Names(schema), at) == others
  }

  lemma InsertedAtPlace(names: seq<string>, order: Order, at: nat, name: string)
    requires Position(names, order) == Some(at)
    ensures AtPlace(InsertAt(names, at, name), order, at)
  {
    InsertedIs(names, at, name);
    if order.After? {
      assert InsertAt(names, at, name)[at - 1] == names[at - 1];
    }
  }

  lemma AddedAt(fold: string -> string, schema: seq<Column>, column: Column, at: nat)
    requires at <= |schema|
    ensures StandsAt(Added(fold, schema, column, at), column, at, Names(schema))
    ensures Names(Added(fold, schema, column, at)) == InsertAt(Names(schema), at, column.name)
  {
    NamesAdded(fold, schema, column, at);
    InsertedIs(Names(schema), at, column.name);
    InsertedIs(ReindexAll(fold, InsertAt(Names(schema), at, column.name), schema), at, column);
  }

  /** A column that is added stands where the order asks for it, and the others stand as before. */
  lemma AddedWhere(fold: string -> string, schema: seq<Column>, column: Column, order: Order, schema': seq<Column>)
    requires AddedSchema(fold, schema, column, order) == Some(Columns(schema'))
    ensures exists at: nat :: StandsAt(schema', column, at, Names(schema)) && AtPlace(Names(schema'), order, at)
  {
    var at := Position(Names(schema), order).value;
    AddedAt(fold, schema, column, at);
    InsertedAtPlace(Names(schema), order, at, column.name);
  }

  /** A column that is modified stands where the order asks for it, or where it was, and the others stand as before. */
  lemma ModifiedWhere(fold: string -> string, schema: seq<Column>, name: string, column: Column, order: Order, schema': seq<Column>)
    requires Unique(Names(schema)) && SchemaStep(fold, schema, Modify(name, column, order)) == Some(Columns(schema'))
    ensures exists from: nat, at: nat :: from < |schema| && MovedTo(schema, name, column, order, schema', from, at)
  {
    var names := Names(schema);
    var from := Find(names, name).value;
    NamesRemove(schema, from);
    var back := PutBack(names, from, order);
    var at := Position(Names(RemoveAt(schema, from)), back).value;
    AddedAt(fold, RemoveAt(schema, from), column, at);
    InsertedAtPlace(RemoveAt(names, from), back, at, column.name);
    if order == Unordered {
      StaysInPlace(names, from);
    }
    assert MovedTo(schema, name, column, order, schema', from, at);
  }

  ghost predicate MovedTo(schema: seq<Column>, name: string, column: Column, order: Order, schema': seq<Column>, from: nat, at: nat)
    requires from < |schema|
  {
    && schema[from].name == name && StandsAt(schema', column, at, RemoveAt(Names(schema), from))
    && if order == Unordered then at == from else AtPlace(Names(schema'), order, at)
  }

  // ---------------------------------------------------------------- what is possible

  /** There is a place for the column among these, or there are no columns. */
  predicate HasPlace(names: seq<string>, order: Order) {
    names == [] || (order.After? ==> order.column in names)
  }

  /** Adding panics exactly on a column to follow that is not there, dropping and modifying exactly on a column that is not there. */
  lemma SchemaStepIff(fold: string -> string, schema: seq<Column>, op: Op)
    requires Unique(Names(schema))
    ensures SchemaStep(fold, schema, op).Some? <==>
            match op
            case Add(_, order) => HasPlace(Names(schema), order)
            case Drop(name) => name in Names(schema)
            case Modify(name, _, order) => name in Names(schema) && HasPlace(RemoveAt(Names(schema), Find(Names(schema), name).value), order)
  {
    if op.Modify? && op.name in Names(schema) {
      var names := Names(schema);
      var from := Find(names, op.name).value;
      NamesRemove(schema, from);
      if op.order == Unordered {
        StaysInPlace(names, from);
      }
    }
  }

  /** The value that an operation needs of a row: the default of a new column, or the conversion of an old value. */
  ghost predicate RowAllows(lib: Library, schema: seq<Column>, op: Op, row: Row)
    requires |row| == |schema| && Unique(Names(schema))
  {
    match op
    case Add(column, order) =>
      exists v :: Offers(lib, column.default, InsertAt(row, PositionOrFirst(Names(schema), order), Null), v)
    case Drop(_) => true
    case Modify(name, column, _) => name in AsMap(Names(schema), row) ==> column.convert(AsMap(Names(schema), row)[name]).Ok?
  }

  /** An operation fails on a row of the table exactly when the value it needs is not to be had. */
  lemma RowStepIff(lib: Library, fold: string -> string, schema: seq<Column>, op: Op, row: Row)
    requires |row| == |schema| && Unique(Names(schema)) && SchemaStep(fold, schema, op).Some?
    ensures RowStep(lib, schema, op, row).Ok? <==> RowAllows(lib, schema, op, row)
  {
    var names := Names(schema);
    match op
    case Add(column, order) =>
      OffersIff(lib, column.default, InsertAt(row, PositionOrFirst(names, order), Null));
    case Drop(name) =>
    case Modify(name, column, order) =>
      var from := Find(names, name).value;
      AsMapAt(names, row, from);
      NamesRemove(schema, from);
  }
}
