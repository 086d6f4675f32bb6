/** What runs of column changes do to the values of a row, by column name, and to the defaults of the schema. */
module ColumnValues {
  import opened Wrappers
  import opened Expressions
  import opened Defaults
  import opened TableReads
  import opened TableDdl

  /** A row as the values its columns hold, without their positions. */
  ghost function AsMap(names: seq<string>, row: Row): map<string, Value>
    requires |names| == |row|
  {
    map n | n in names :: row[Find(names, n).value]
  }

  lemma AsMapAt(names: seq<string>, row: Row, i: nat)
    requires |names| == |row| && Unique(names) && i < |names|
    ensures names[i] in AsMap(names, row) && AsMap(names, row)[names[i]] == row[i]
  {
    FindUnique(names, i);
  }

  lemma IsMap(names: seq<string>, row: Row, m: map<string, Value>)
    requires |names| == |row| && Unique(names)
    requires forall i :: 0 <= i < |names| ==> names[i] in m && m[names[i]] == row[i]
    requires forall n :: n in m ==> n in names
    ensures AsMap(names, row) == m
  {
    forall n | n in names ensures n in m && m[n] == AsMap(names, row)[n] {
      assert names[Find(names, n).value] == n;
    }
  }

  lemma InsertedMap(names: seq<string>, row: Row, at: nat, name: string, v: Value)
    requires |names| == |row| && Unique(names) && name !in names && at <= |names|
    ensures AsMap(InsertAt(names, at, name), InsertAt(row, at, v)) == AsMap(names, row)[name := v]
  {
    var names', row', m := InsertAt(names, at, name), InsertAt(row, at, v), AsMap(names, row)[name := v];
    UniqueInsert(names, at, name);
    forall i | 0 <= i < |names'| ensures names'[i] in m && m[names'[i]] == row'[i] {
      if i != at {
        var j := if i < at then i else i - 1;
        InsertedElement(names, at, name, j);
        InsertedElement(row, at, v, j);
        AsMapAt(names, row, j);
      }
    }
    forall n | n in m ensures n in names' {
      InsertedIn(names, at, name, n);
    }
    IsMap(names', row', m);
  }

  lemma InsertedIn(names: seq<string>, at: nat, name: string, n: string)
    requires at <= |names| && (n == name || n in names)
    ensures n in InsertAt(names, at, name)
  {
    if n == name {
      assert InsertAt(names, at, name)[at] == name;
    } else {
      InsertedElement(names, at, name, Find(names, n).value);
    }
  }

  lemma RemovedMap(names: seq<string>, row: Row, at: nat)
    requires |names| == |row| && Unique(names) && at < |names|
    ensures AsMap(RemoveAt(names, at), RemoveAt(row, at)) == AsMap(names, row) - {names[at]}
  {
    var names', row' := RemoveAt(names, at), RemoveAt(row, at);
    UniqueRemove(names, at);
    InsertedMap(names', row', at, names[at], row[at]);
    assert InsertAt(names', at, names[at]) == names && InsertAt(row', at, row[at]) == row;
    PutThenRemove(AsMap(names', row'), names[at], row[at]);
  }

  lemma PutThenRemove(m: map<string, Value>, k: string, v: Value)
    requires k !in m
    ensures m[k := v] - {k} == m
  {
  }

  // ---------------------------------------------------------------- one operation

  /** The default of an added column, evaluated on the row it is added to. */
  ghost predicate HoldsDefault(lib: Library, schema: seq<Column>, column: Column, row: Row) {
    && |row| == |schema|
    && exists at :: 0 <= at < |schema| && schema[at] == column && EvalDefault(lib, column.default, row[at := Null]) == Ok(row[at])
  }

  /** What the values of a row become, wherever the columns stand. */
  ghost predicate ValuesStep(lib: Library, op: Op, before: map<string, Value>, schema': seq<Column>, row': Row)
    requires |schema'| == |row'|
  {
    var after := AsMap(Names(schema'), row');
    match op
    case Add(column, _) =>
      column.name in after && after == before[column.name := after[column.name]] && HoldsDefault(lib, schema', column, row')
    case Drop(name) => after == before - {name}
    case Modify(name, column, _) =>
      && name in before
      && var v := column.convert(before[name]);
        v.Ok? && after == (before - {name})[column.name := v.value]
  }

  /** One operation on one row of an aligned table. */
  ghost predicate Step(lib: Library, fold: string -> string, schema: seq<Column>, row: Row, op: Op, schema': seq<Column>, row': Row) {
    && NewName(Names(schema), op)
    && SchemaStep(fold, schema, op) == Some(Columns(schema'))
    && RowStep(lib, schema, op, row) == Ok(row')
  }

  lemma StepValues(lib: Library, fold: string -> string, schema: seq<Column>, row: Row, op: Op, schema': seq<Column>, row': Row)
    requires Unique(Names(schema)) && |row| == |schema| && Step(lib, fold, schema, row, op, schema', row')
    ensures Unique(Names(schema')) && |row'| == |schema'|
    ensures ValuesStep(lib, op, AsMap(Names(schema), row), schema', row')
  {
    StepUnique(fold, schema, op);
    StepWidth(lib, fold, schema, op, row);
    var names := Names(schema);
    match op
    case Add(column, order) =>
      var at := Position(names, order).value;
      AddedValues(lib, fold, schema, row, column, at, row');
    case Drop(name) =>
      var at := Find(names, name).value;
      NamesRemove(schema, at);
      RemovedMap(names, row, at);
    case Modify(name, column, order) =>
      var from := Find(names, name).value;
      NamesRemove(schema, from);
      ModifiedValues(fold, schema, row, name, column, from, Target(names, from, order).value);
  }

  lemma AddedValues(lib: Library, fold: string -> string, schema: seq<Column>, row: Row, column: Column, at: nat, row': Row)
    requires Unique(Names(schema)) && |row| == |schema| && column.name !in Names(schema) && at <= |schema|
    requires InsertRow(lib, at, column.default, row) == Ok(row')
    ensures |row'| == |Added(fold, schema, column, at)|
    ensures AsMap(Names(Added(fold, schema, column, at)), row') == AsMap(Names(schema), row)[column.name := row'[at]]
    ensures HoldsDefault(lib, Added(fold, schema, column, at), column, row')
  {
    var schema' := Added(fold, schema, column, at);
    NamesAdded(fold, schema, column, at);
    InsertedMap(Names(schema), row, at, column.name, row'[at]);
    assert row'[at := Null] == InsertAt(row, at, Null);
    assert schema'[at] == column;
  }

  lemma ModifiedValues(fold: string -> string, schema: seq<Column>, row: Row, name: string, column: Column, from: nat, to: nat)
    requires Unique(Names(schema)) && |row| == |schema| && from < |schema| && to < |schema| && schema[from].name == name
    requires column.name == name || column.name !in Names(schema)
    requires column.convert(row[from]).Ok?
    ensures var v := column.convert(row[from]).value;
            var row' := InsertAt(RemoveAt(row, from), to, v);
            var schema' := Added(fold, RemoveAt(schema, from), column, to);
            && |row'| == |schema'|
            && AsMap(Names(schema'), row') == (AsMap(Names(schema), row) - {name})[column.name := v]
            && name in AsMap(Names(schema), row) && AsMap(Names(schema), row)[name] == row[from]
  {
    var names := Names(schema);
    assert names[from] == name;
    AsMapAt(names, row, from);
    NamesRemove(schema, from);
    UniqueRemove(names, from);
    RemovedMap(names, row, from);
    NamesAdded(fold, RemoveAt(schema, from), column, to);
    InsertedMap(RemoveAt(names, from), RemoveAt(row, from), to, column.name, column.convert(row[from]).value);
  }

  // ---------------------------------------------------------------- runs

  /** A run of operations on one row of an aligned table. */
  ghost predicate Run(lib: Library, fold: string -> string, schema: seq<Column>, row: Row, ops: seq<Op>, schema': seq<Column>, row': Row)
    decreases |ops|
  {
    if ops == [] then schema' == schema && row' == row
    else exists s, r :: Step(lib, fold, schema, row, ops[0], s, r) && Run(lib, fold, s, r, ops[1..], schema', row')
  }

  predicate Touches(op: Op, name: string) {
    match op
    case Add(column, _) => column.name == name
    case Drop(n) => n == name
    case Modify(n, column, _) => n == name || column.name == name
  }

  /** Whatever a run does, names stay unique, rows keep one value for each column, and untouched columns keep their values. */
  lemma {:induction false} UntouchedKeepsValue(lib: Library, fold: string -> string, schema: seq<Column>, row: Row, ops: seq<Op>,
                                               schema': seq<Column>, row': Row, name: string)
    requires Unique(Names(schema)) && |row| == |schema| && Run(lib, fold, schema, row, ops, schema', row')
    requires forall i :: 0 <= i < |ops| ==> !Touches(ops[i], name)
    ensures Unique(Names(schema')) && |row'| == |schema'|
    ensures name in Names(schema') <==> name in Names(schema)
    ensures name in Names(schema) ==> AsMap(Names(schema'), row')[name] == AsMap(Names(schema), row)[name]
    decreases |ops|
  {
    if ops != [] {
      var s, r :| Step(lib, fold, schema, row, ops[0], s, r) && Run(lib, fold, s, r, ops[1..], schema', row');
      StepValues(lib, fold, schema, row, ops[0], s, r);
      assert name in AsMap(Names(schema), row) <==> name in AsMap(Names(s), r);
      UntouchedKeepsValue(lib, fold, s, r, ops[1..], schema', row', name);
    }
  }

  /**
   At the end of a run, a column holds what the last operation that touched it gave it: its default
   on the row of that moment if it was added, the conversion of its old value if it was modified.
   */
  lemma LastChangeShows(lib: Library, fold: string -> string, schema: seq<Column>, row: Row, op: Op, rest: seq<Op>,
                        s: seq<Column>, r: Row, schema': seq<Column>, row': Row)
    requires Unique(Names(schema)) && |row| == |schema| && !op.Drop?
    requires Step(lib, fold, schema, row, op, s, r) && Run(lib, fold, s, r, rest, schema', row')
    requires forall i :: 0 <= i < |rest| ==> !Touches(rest[i], op.column.name)
    ensures |row'| == |schema'| && |r| == |s| && op.column.name in Names(schema') && op.column.name in Names(s)
    ensures op.Add? ==>
              && HoldsDefault(lib, s, op.column, r)
              && AsMap(Names(schema'), row')[op.column.name] == AsMap(Names(s), r)[op.column.name]
    ensures op.Modify? ==>
              && op.name in AsMap(Names(schema), row)
              && op.column.convert(AsMap(Names(schema), row)[op.name]) == Ok(AsMap(Names(schema'), row')[op.column.name])
  {
    StepValues(lib, fold, schema, row, op, s, r);
    assert op.column.name in AsMap(Names(s), r);
    UntouchedKeepsValue(lib, fold, s, r, rest, schema', row', op.column.name);
  }

  // ---------------------------------------------------------------- defaults

  predicate FoldUnique(fold: string -> string, names: seq<string>) {
    forall i, j :: 0 <= i < j < |names| ==> fold(names[i]) != fold(names[j])
  }

  /** Every column reference points at the column it names. */
  predicate Point(fold: string -> string, names: seq<string>, fields: set<Field>) {
    forall f :: f in fields ==> IndexOf(fold, names, f.name) == Some(f.index)
  }

  /** Every default of the schema refers to the columns it names. */
  predicate DefaultsPoint(fold: string -> string, schema: seq<Column>) {
    forall i :: 0 <= i < |schema| ==> Point(fold, Names(schema), Reads(schema[i].default))
  }

  lemma IndexOfUnique(fold: string -> string, names: seq<string>, i: nat, name: string)
    requires FoldUnique(fold, names) && i < |names| && fold(names[i]) == fold(name)
    ensures IndexOf(fold, names, name) == Some(i)
  {
  }

  ghost predicate Reindexes(fold: string -> string, names: seq<string>, f: Expr -> Result<Expr, Error>) {
    forall e :: f(e) == Ok(ReindexNode(fold, names, e))
  }

  /** The re-indexed reference finds in the new row what the old one found in the old row. */
  ghost predicate Finds(fold: string -> string, names: seq<string>, fields: set<Field>, row: Row, row': Row) {
    forall f :: f in fields ==>
                  && 0 <= f.index < |row|
                  && var i := IndexOf(fold, names, f.name);
                    i.Some? && i.value < |row'| && row'[i.value] == row[f.index]
  }

  predicate Known(fold: string -> string, names: seq<string>, fields: set<Field>) {
    forall f :: f in fields ==> IndexOf(fold, names, f.name).Some?
  }

  /** Re-indexing points every reference at the column it names. */
  lemma {:induction false} ReindexPoints(fold: string -> string, names: seq<string>, f: Expr -> Result<Expr, Error>, e: Expr)
    requires Reindexes(fold, names, f) && Known(fold, names, Fields(e))
    ensures TransformUp(e, f).Ok? && Point(fold, names, Fields(TransformUp(e, f).value))
    decreases e, 1
  {
    match e
    case GetField(i, t, n) => assert Field(i, t, n) in Fields(e);
    case Literal(_) =>
    case And(l, r) => ReindexPoints(fold, names, f, l); ReindexPoints(fold, names, f, r);
    case Or(l, r) => ReindexPoints(fold, names, f, l); ReindexPoints(fold, names, f, r);
    case Compare(_, l, r) => ReindexPoints(fold, names, f, l); ReindexPoints(fold, names, f, r);
    case Not(c) => ReindexPoints(fold, names, f, c);
    case Alias(_, c) => ReindexPoints(fold, names, f, c);
    case Agg(_, c) => ReindexPoints(fold, names, f, c);
    case Call(_, args) => ReindexAllPoints(fold, names, f, args);
  }

  lemma {:induction false} ReindexAllPoints(fold: string -> string, names: seq<string>, f: Expr -> Result<Expr, Error>, es: seq<Expr>)
    requires Reindexes(fold, names, f) && Known(fold, names, FieldsOfAll(es))
    ensures TransformAll(es, f).Ok? && Point(fold, names, FieldsOfAll(TransformAll(es, f).value))
    decreases es, 0
  {
    if es != [] {
      ReindexPoints(fold, names, f, es[0]);
      ReindexAllPoints(fold, names, f, es[1..]);
      var es' := TransformAll(es, f).value;
      assert es'[0] == TransformUp(es[0], f).value && es'[1..] == TransformAll(es[1..], f).value;
    }
  }

  /** Re-indexing keeps the value of an expression when the columns move. */
  lemma {:induction false} ReindexKeepsValue(lib: Library, fold: string -> string, names: seq<string>, f: Expr -> Result<Expr, Error>,
                                             e: Expr, row: Row, row': Row)
    requires Reindexes(fold, names, f) && !ContainsAgg(e) && Finds(fold, names, Fields(e), row, row')
    ensures TransformUp(e, f).Ok? && Eval(lib, TransformUp(e, f).value, row') == Eval(lib, e, row)
    decreases e, 1
  {
    match e
    case GetField(i, t, n) => assert Field(i, t, n) in Fields(e);
    case Literal(_) =>
    case And(l, r) => ReindexKeepsBoth(lib, fold, names, f, e, l, r, row, row');
    case Or(l, r) => ReindexKeepsBoth(lib, fold, names, f, e, l, r, row, row');
    case Compare(_, l, r) => ReindexKeepsBoth(lib, fold, names, f, e, l, r, row, row');
    case Not(c) => ReindexKeepsValue(lib, fold, names, f, c, row, row');
    case Alias(_, c) => ReindexKeepsValue(lib, fold, names, f, c, row, row');
    case Call(_, args) => ReindexAllKeepsValues(lib, fold, names, f, args, row, row');
  }

  lemma {:induction false} ReindexKeepsBoth(lib: Library, fold: string -> string, names: seq<string>, f: Expr -> Result<Expr, Error>,
                                            e: Expr, l: Expr, r: Expr, row: Row, row': Row)
    requires l < e && r < e && Reindexes(fold, names, f) && !ContainsAgg(l) && !ContainsAgg(r)
    requires Finds(fold, names, Fields(l) + Fields(r), row, row')
    ensures TransformUp(l, f).Ok? && Eval(lib, TransformUp(l, f).value, row') == Eval(lib, l, row)
    ensures TransformUp(r, f).Ok? && Eval(lib, TransformUp(r, f).value, row') == Eval(lib, r, row)
    decreases e, 0
  {
    ReindexKeepsValue(lib, fold, names, f, l, row, row');
    ReindexKeepsValue(lib, fold, names, f, r, row, row');
  }

  lemma {:induction false} ReindexAllKeepsValues(lib: Library, fold: string -> string, names: seq<string>, f: Expr -> Result<Expr, Error>,
                                                 es: seq<Expr>, row: Row, row': Row)
    requires Reindexes(fold, names, f) && !AnyContainsAgg(es) && Finds(fold, names, FieldsOfAll(es), row, row')
    ensures TransformAll(es, f).Ok? && EvalAll(lib, TransformAll(es, f).value, row') == EvalAll(lib, es, row)
    decreases es, 0
  {
    if es != [] {
      ReindexKeepsValue(lib, fold, names, f, es[0], row, row');
      ReindexAllKeepsValues(lib, fold, names, f, es[1..], row, row');
      var es' := TransformAll(es, f).value;
      assert es'[0] == TransformUp(es[0], f).value && es'[1..] == TransformAll(es[1..], f).value;
    }
  }

  /** The position of a column once another has been inserted at `at`. */
  function Shifted(i: int, at: nat): int {
    if i < at then i else i + 1
  }

  lemma InsertedElement<T>(s: seq<T>, at: nat, x: T, i: nat)
    requires at <= |s| && i < |s|
    ensures Shifted(i, at) < |InsertAt(s, at, x)| && InsertAt(s, at, x)[Shifted(i, at)] == s[i]
  {
  }

  lemma RemovedElement<T>(s: seq<T>, at: nat, i: nat)
    requires at < |s| && i < |RemoveAt(s, at)|
    ensures RemoveAt(s, at)[i] == s[Shifted(i, at)]
  {
  }

  lemma ReferenceMoves(fold: string -> string, names: seq<string>, at: nat, name: string, f: Field)
    requires at <= |names| && FoldUnique(fold, InsertAt(names, at, name)) && IndexOf(fold, names, f.name) == Some(f.index)
    ensures IndexOf(fold, InsertAt(names, at, name), f.name) == Some(Shifted(f.index, at))
  {
    InsertedElement(names, at, name, f.index);
    IndexOfUnique(fold, InsertAt(names, at, name), Shifted(f.index, at), f.name);
  }

  /** A new column leaves the other defaults pointing at the columns they name, and evaluating as before. */
  lemma AddKeepsDefaults(lib: Library, fold: string -> string, schema: seq<Column>, column: Column, at: nat, i: nat, row: Row, v: Value)
    requires at <= |schema| && i < |schema| && |row| == |schema|
    requires FoldUnique(fold, InsertAt(Names(schema), at, column.name))
    requires DefaultsPoint(fold, schema) && Scalar(schema[i].default)
    ensures var moved := Added(fold, schema, column, at)[Shifted(i, at)];
            && moved == schema[i].(default := moved.default)
            && Point(fold, InsertAt(Names(schema), at, column.name), Reads(moved.default))
            && EvalDefault(lib, moved.default, InsertAt(row, at, v)) == EvalDefault(lib, schema[i].default, row)
  {
    var names := Names(schema);
    var names', d, row' := InsertAt(names, at, column.name), schema[i].default, InsertAt(row, at, v);
    InsertedElement(ReindexAll(fold, names', schema), at, column, i);
    if d.Default? {
      forall f | f in Fields(d.expr)
        ensures IndexOf(fold, names', f.name) == Some(Shifted(f.index, at)) && 0 <= f.index < |row|
      {
        assert f in Reads(d);
        ReferenceMoves(fold, names, at, column.name, f);
      }
      ShiftedFinds(fold, names', at, Fields(d.expr), row, v);
      DefaultMoves(lib, fold, names', d, row, row');
    }
  }

  lemma ShiftedFinds(fold: string -> string, names: seq<string>, at: nat, fields: set<Field>, row: Row, v: Value)
    requires at <= |row|
    requires forall f :: f in fields ==> IndexOf(fold, names, f.name) == Some(Shifted(f.index, at)) && 0 <= f.index < |row|
    ensures Finds(fold, names, fields, row, InsertAt(row, at, v))
  {
    forall f | f in fields ensures InsertAt(row, at, v)[Shifted(f.index, at)] == row[f.index] {
      InsertedElement(row, at, v, f.index);
    }
  }

  lemma DefaultMoves(lib: Library, fold: string -> string, names: seq<string>, d: Default, row: Row, row': Row)
    requires d.Default? && Scalar(d) && Finds(fold, names, Fields(d.expr), row, row')
    ensures Point(fold, names, Reads(Reindex(fold, names, d)))
    ensures EvalDefault(lib, Reindex(fold, names, d), row') == EvalDefault(lib, d, row)
  {
    var f := e => Ok(ReindexNode(fold, names, e));
    assert Reindex(fold, names, d) == match TransformUp(d.expr, f) case Ok(e) => d.(expr := e) case Err(_) => d;
    ReindexPoints(fold, names, f, d.expr);
    ReindexKeepsValue(lib, fold, names, f, d.expr, row, row');
  }

  /** A reference after re-indexing: -1 where no column has the name. */
  function Moved(fold: string -> string, names: seq<string>, f: Field): Field {
    match IndexOf(fold, names, f.name)
    case Some(i) => Field(i, f.table, f.name)
    case None => Field(-1, f.table, f.name)
  }

  ghost predicate MovedInto(fold: string -> string, names: seq<string>, fields: set<Field>, after: set<Field>) {
    forall f :: f in fields ==> Moved(fold, names, f) in after
  }

  /** Re-indexing loses no reference. */
  lemma {:induction false} ReindexMoves(fold: string -> string, names: seq<string>, f: Expr -> Result<Expr, Error>, e: Expr)
    requires Reindexes(fold, names, f)
    ensures TransformUp(e, f).Ok? && MovedInto(fold, names, Fields(e), Fields(TransformUp(e, f).value))
    decreases e, 1
  {
    match e
    case GetField(i, t, n) =>
    case Literal(_) =>
    case And(l, r) => ReindexMoves(fold, names, f, l); ReindexMoves(fold, names, f, r);
    case Or(l, r) => ReindexMoves(fold, names, f, l); ReindexMoves(fold, names, f, r);
    case Compare(_, l, r) => ReindexMoves(fold, names, f, l); ReindexMoves(fold, names, f, r);
    case Not(c) => ReindexMoves(fold, names, f, c);
    case Alias(_, c) => ReindexMoves(fold, names, f, c);
    case Agg(_, c) => ReindexMoves(fold, names, f, c);
    case Call(_, args) => ReindexAllMoves(fold, names, f, args);
  }

  lemma {:induction false} ReindexAllMoves(fold: string -> string, names: seq<string>, f: Expr -> Result<Expr, Error>, es: seq<Expr>)
    requires Reindexes(fold, names, f)
    ensures TransformAll(es, f).Ok? && MovedInto(fold, names, FieldsOfAll(es), FieldsOfAll(TransformAll(es, f).value))
    decreases es, 0
  {
    if es != [] {
      ReindexMoves(fold, names, f, es[0]);
      ReindexAllMoves(fold, names, f, es[1..]);
      var es' := TransformAll(es, f).value;
      assert es'[0] == TransformUp(es[0], f).value && es'[1..] == TransformAll(es[1..], f).value;
    }
  }

  /** A re-indexed default refers to the columns it names exactly when the schema knows all their names. */
  lemma ReindexPointsIff(fold: string -> string, names: seq<string>, d: Default)
    ensures Point(fold, names, Reads(Reindex(fold, names, d))) <==> Known(fold, names, Reads(d))
  {
    if d.Default? {
      var f := e => Ok(ReindexNode(fold, names, e));
      assert Reindex(fold, names, d) == match TransformUp(d.expr, f) case Ok(e) => d.(expr := e) case Err(_) => d;
      ReindexMoves(fold, names, f, d.expr);
      if Known(fold, names, Reads(d)) {
        ReindexPoints(fold, names, f, d.expr);
      } else {
        var x :| x in Reads(d) && IndexOf(fold, names, x.name).None?;
        assert Moved(fold, names, x) in Reads(Reindex(fold, names, d));
      }
    }
  }

  lemma FoundAt(fold: string -> string, names: seq<string>, j: nat, name: string)
    requires j < |names| && fold(names[j]) == fold(name)
    ensures IndexOf(fold, names, name).Some?
  {
  }

  lemma NotFound(fold: string -> string, names: seq<string>, name: string)
    requires forall j :: 0 <= j < |names| ==> fold(names[j]) != fold(name)
    ensures IndexOf(fold, names, name).None?
  {
  }

  /** Where an element goes when another one is taken out and a new one put in. */
  lemma PlaceAfter<T>(s: seq<T>, from: nat, to: nat, x: T, k: nat) returns (j: nat)
    requires from < |s| && to < |s| && k < |s| && k != from
    ensures j < |s| && InsertAt(RemoveAt(s, from), to, x)[j] == s[k]
  {
    var i := if k < from then k else k - 1;
    RemovedElement(s, from, i);
    InsertedElement(RemoveAt(s, from), to, x, i);
    j := Shifted(i, to);
  }

  /** Where an element came from, unless it is the new one. */
  lemma PlaceBefore<T>(s: seq<T>, from: nat, to: nat, x: T, j: nat) returns (k: nat)
    requires from < |s| && to < |s| && j < |s| && j != to
    ensures k < |s| && k != from && InsertAt(RemoveAt(s, from), to, x)[j] == s[k]
  {
    var i := if j < to then j else j - 1;
    InsertedElement(RemoveAt(s, from), to, x, i);
    RemovedElement(s, from, i);
    k := Shifted(i, from);
  }

  lemma NewPlaceOf<T>(s: seq<T>, from: nat, to: nat, x: T)
    requires from < |s| && to < |s|
    ensures |InsertAt(RemoveAt(s, from), to, x)| == |s| && InsertAt(RemoveAt(s, from), to, x)[to] == x
  {
  }

  /** The column a name stands for is still there under that name when another one has been replaced. */
  lemma ReplacedReference(fold: string -> string, names: seq<string>, from: nat, to: nat, name: string, f: Field, names': seq<string>)
    requires from < |names| && to < |names| && IndexOf(fold, names, f.name) == Some(f.index) && FoldUnique(fold, names)
    requires names' == InsertAt(RemoveAt(names, from), to, name)
    ensures IndexOf(fold, names', f.name).Some? <==> f.index != from || fold(name) == fold(names[from])
  {
    NewPlaceOf(names, from, to, name);
    if f.index != from {
      var j := PlaceAfter(names, from, to, name, f.index);
      FoundAt(fold, names', j, f.name);
    } else if fold(name) == fold(names[from]) {
      FoundAt(fold, names', to, f.name);
    } else {
      forall j | 0 <= j < |names'| ensures fold(names'[j]) != fold(f.name) {
        if j != to {
          var k := PlaceBefore(names, from, to, name, j);
        }
      }
      NotFound(fold, names', f.name);
    }
  }

  /**
   After a column has been modified, another default refers to the columns it names exactly when it
   does not refer to that column or the column keeps its name. A reference to a name that is gone
   gets the index -1.
   */
  lemma ModifyKeepsDefaultsIff(fold: string -> string, schema: seq<Column>, from: nat, column: Column, to: nat, i: nat)
    requires from < |schema| && to < |schema| && i < |schema| && i != from
    requires FoldUnique(fold, Names(schema)) && DefaultsPoint(fold, schema)
    ensures var names' := InsertAt(RemoveAt(Names(schema), from), to, column.name);
            var moved := Added(fold, RemoveAt(schema, from), column, to)[Shifted(if i < from then i else i - 1, to)];
            && moved == schema[i].(default := Reindex(fold, names', schema[i].default))
            && (Point(fold, names', Reads(moved.default)) <==>
                fold(column.name) == fold(schema[from].name) || forall f :: f in Reads(schema[i].default) ==> f.index != from)
  {
    var names := Names(schema);
    var rest := RemoveAt(schema, from);
    var names' := InsertAt(RemoveAt(names, from), to, column.name);
    NamesRemove(schema, from);
    var j := if i < from then i else i - 1;
    RemovedElement(schema, from, j);
    InsertedElement(ReindexAll(fold, names', rest), to, column, j);
    ReindexPointsIff(fold, names', schema[i].default);
    forall f | f in Reads(schema[i].default)
      ensures IndexOf(fold, names', f.name).Some? <==> f.index != from || fold(column.name) == fold(names[from])
    {
      ReplacedReference(fold, names, from, to, column.name, f, names');
    }
  }

  /**
   DropColumn does not re-index. When all defaults pointed at the columns they name, they still do
   exactly when no remaining default refers to the dropped column or to one after it.
   */
  lemma DropKeepsDefaultsIff(fold: string -> string, schema: seq<Column>, at: nat)
    requires at < |schema| && FoldUnique(fold, Names(schema)) && DefaultsPoint(fold, schema)
    ensures DefaultsPoint(fold, RemoveAt(schema, at)) <==> ReferBefore(schema, at)
  {
    NamesRemove(schema, at);
    if ReferBefore(schema, at) {
      DropKeepsDefaults(fold, schema, at, RemoveAt(schema, at));
    } else {
      DropBreaksDefaults(fold, schema, at, RemoveAt(schema, at));
    }
  }

  lemma DropKeepsDefaults(fold: string -> string, schema: seq<Column>, at: nat, rest: seq<Column>)
    requires at < |schema| && FoldUnique(fold, Names(schema)) && DefaultsPoint(fold, schema) && ReferBefore(schema, at)
    requires rest == RemoveAt(schema, at) && Names(rest) == RemoveAt(Names(schema), at)
    ensures DefaultsPoint(fold, rest)
  {
    forall j | 0 <= j < |rest| ensures Point(fold, Names(rest), Reads(rest[j].default)) {
      RemovedElement(schema, at, j);
      DroppedReferences(fold, schema, at, Shifted(j, at));
    }
  }

  lemma DropBreaksDefaults(fold: string -> string, schema: seq<Column>, at: nat, rest: seq<Column>)
    requires at < |schema| && FoldUnique(fold, Names(schema)) && DefaultsPoint(fold, schema) && !ReferBefore(schema, at)
    requires rest == RemoveAt(schema, at) && Names(rest) == RemoveAt(Names(schema), at)
    ensures !DefaultsPoint(fold, rest)
  {
    var i :| 0 <= i < |schema| && i != at && !BeforeAt(Reads(schema[i].default), at);
    DroppedReferences(fold, schema, at, i);
    var j := StaysAt(schema, at, i, rest);
    PointsNot(fold, rest, j);
  }

  lemma StaysAt(schema: seq<Column>, at: nat, i: nat, rest: seq<Column>) returns (j: nat)
    requires at < |schema| && i < |schema| && i != at && rest == RemoveAt(schema, at)
    ensures j < |rest| && rest[j] == schema[i]
  {
    j := if i < at then i else i - 1;
    RemovedElement(schema, at, j);
  }

  lemma PointsNot(fold: string -> string, schema: seq<Column>, j: nat)
    requires j < |schema| && !Point(fold, Names(schema), Reads(schema[j].default))
    ensures !DefaultsPoint(fold, schema)
  {
  }

  predicate BeforeAt(fields: set<Field>, at: nat) {
    forall f :: f in fields ==> f.index < at
  }

  /** No other default refers to the column or to one after it. */
  predicate ReferBefore(schema: seq<Column>, at: nat) {
    forall i :: 0 <= i < |schema| && i != at ==> BeforeAt(Reads(schema[i].default), at)
  }

  lemma DroppedReferences(fold: string -> string, schema: seq<Column>, at: nat, i: nat)
    requires at < |schema| && i < |schema| && FoldUnique(fold, Names(schema)) && DefaultsPoint(fold, schema)
    ensures Point(fold, RemoveAt(Names(schema), at), Reads(schema[i].default)) <==> BeforeAt(Reads(schema[i].default), at)
  {
    forall f | f in Reads(schema[i].default)
      ensures IndexOf(fold, RemoveAt(Names(schema), at), f.name) == Some(f.index) <==> f.index < at
    {
      DroppedReference(fold, Names(schema), at, f);
    }
  }

  lemma DroppedReference(fold: string -> string, names: seq<string>, at: nat, f: Field)
    requires at < |names| && FoldUnique(fold, names) && IndexOf(fold, names, f.name) == Some(f.index)
    ensures IndexOf(fold, RemoveAt(names, at), f.name) == Some(f.index) <==> f.index < at
  {
    var names' := RemoveAt(names, at);
    if f.index < at {
      RemovedElement(names, at, f.index);
      FoldUniqueRemove(fold, names, at);
      IndexOfUnique(fold, names', f.index, f.name);
    } else if f.index < |names'| {
      RemovedElement(names, at, f.index);
      assert fold(names[f.index]) != fold(names[f.index + 1]);
    }
  }

  lemma FoldUniqueRemove(fold: string -> string, names: seq<string>, at: nat)
    requires at < |names| && FoldUnique(fold, names)
    ensures FoldUnique(fold, RemoveAt(names, at))
  {
    forall i, j | 0 <= i < j < |RemoveAt(names, at)| ensures fold(RemoveAt(names, at)[i]) != fold(RemoveAt(names, at)[j]) {
      RemovedElement(names, at, i);
      RemovedElement(names, at, j);
    }
  }

  /** Dropping the first of three columns makes a default that reads the second read the third. */
  lemma DroppedColumnMisleads(lib: Library, schema: seq<Column>, row: Row)
    requires |schema| == |row| == 3 && schema[2].default == Default(GetField(1, "t", "b"), None, false, true)
    ensures EvalDefault(lib, schema[2].default, row) == Ok(row[1])
    ensures EvalDefault(lib, RemoveAt(schema, 0)[1].default, RemoveAt(row, 0)) == Ok(row[2])
  {
    RemovedElement(schema, 0, 1);
    RemovedElement(row, 0, 1);
  }
}
