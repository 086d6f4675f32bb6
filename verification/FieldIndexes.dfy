/** Re-indexing column references for another schema, from sql/analyzer/fix_field_indexes.go. */
module FieldIndexes {
  import opened Wrappers
  import opened Expressions

  datatype Column = Column(name: string, source: string)

  type Schema = seq<Column>

  predicate IsColumn(schema: Schema, i: int, table: string, name: string) {
    0 <= i < |schema| && schema[i] == Column(name, table)
  }

  /** The read-only scan: the first column with this name and source, or None. */
  function Find(schema: Schema, table: string, name: string): (r: Option<nat>)
    ensures r.Some? ==> IsColumn(schema, r.value, table, name)
    ensures r.Some? ==> forall k :: 0 <= k < r.value ==> !IsColumn(schema, k, table, name)
    ensures r.None? ==> forall k :: 0 <= k < |schema| ==> !IsColumn(schema, k, table, name)
  {
    FindFrom(schema, table, name, 0)
  }

  function FindFrom(schema: Schema, table: string, name: string, i: nat): (r: Option<nat>)
    requires i <= |schema|
    ensures r.Some? ==> i <= r.value && IsColumn(schema, r.value, table, name)
    ensures r.Some? ==> forall k :: i <= k < r.value ==> !IsColumn(schema, k, table, name)
    ensures r.None? ==> forall k :: i <= k < |schema| ==> !IsColumn(schema, k, table, name)
    decreases |schema| - i
  {
    if i == |schema| then None
    else if schema[i] == Column(name, table) then Some(i)
    else FindFrom(schema, table, name, i + 1)
  }

  /** What FixFieldIndexes does at one node. */
  function FixNode(schema: Schema, e: Expr): Result<Expr, Error> {
    if e.GetField? then
      match Find(schema, e.table, e.name)
      case None => Err(FieldMissing(e.name))
      case Some(i) => Ok(GetField(i, e.table, e.name))
    else Ok(e)
  }

  function FixFieldIndexes(schema: Schema, e: Expr): Result<Expr, Error> {
    TransformUp(e, x => FixNode(schema, x))
  }

  function FixAll(schema: Schema, es: seq<Expr>): Result<seq<Expr>, Error> {
    TransformAll(es, x => FixNode(schema, x))
  }

  /** Every reference of the tree points at the column it names. */
  predicate Resolved(schema: Schema, e: Expr) {
    forall f :: f in Fields(e) ==> IsColumn(schema, f.index, f.table, f.name)
  }

  /** The two rows hold the same value in each column that both schemas have. */
  predicate Agree(from: Schema, row: Row, to: Schema, row': Row) {
    && |row| == |from| && |row'| == |to|
    && forall i, j :: 0 <= i < |from| && 0 <= j < |to| && from[i] == to[j] ==> row[i] == row'[j]
  }

  predicate AllResolved(schema: Schema, es: seq<Expr>) {
    forall f :: f in FieldsOfAll(es) ==> IsColumn(schema, f.index, f.table, f.name)
  }

  // ---------------------------------------------------------------- the rewrite keeps the meaning

  /** The rewritten tree resolves against the new schema and evaluates on the new row as the old one did. */
  predicate Same(lib: Library, e: Expr, row: Row, to: Schema, e': Expr, row': Row) {
    && Resolved(to, e')
    && Eval(lib, e', row') == Eval(lib, e, row)
  }

  lemma {:induction false} FixKeepsMeaning(lib: Library, from: Schema, row: Row, to: Schema, row': Row, e: Expr)
    requires Agree(from, row, to, row') && Resolved(from, e) && !ContainsAgg(e)
    requires FixFieldIndexes(to, e).Ok?
    ensures Same(lib, e, row, to, FixFieldIndexes(to, e).value, row')
    decreases e, 1
  {
    match e
    case GetField(i, t, n) =>
      assert Field(i, t, n) in Fields(e);
    case Literal(_) =>
    case And(l, r) =>
      FixKeepsMeaning(lib, from, row, to, row', l);
      FixKeepsMeaning(lib, from, row, to, row', r);
    case Or(l, r) =>
      FixKeepsMeaning(lib, from, row, to, row', l);
      FixKeepsMeaning(lib, from, row, to, row', r);
    case Compare(_, l, r) =>
      FixKeepsMeaning(lib, from, row, to, row', l);
      FixKeepsMeaning(lib, from, row, to, row', r);
    case Not(c) => FixKeepsMeaning(lib, from, row, to, row', c);
    case Alias(_, c) => FixKeepsMeaning(lib, from, row, to, row', c);
    case Call(_, args) => FixAllKeepsMeaning(lib, from, row, to, row', args);
  }

  lemma {:induction false} FixAllKeepsMeaning(lib: Library, from: Schema, row: Row, to: Schema, row': Row, es: seq<Expr>)
    requires Agree(from, row, to, row') && AllResolved(from, es) && !AnyContainsAgg(es)
    requires FixAll(to, es).Ok?
    ensures var es' := FixAll(to, es).value;
            AllResolved(to, es') && EvalAll(lib, es', row') == EvalAll(lib, es, row)
    decreases es, 0
  {
    if es != [] {
      FixKeepsMeaning(lib, from, row, to, row', es[0]);
      FixAllKeepsMeaning(lib, from, row, to, row', es[1..]);
      var es' := FixAll(to, es).value;
      assert es'[0] == FixFieldIndexes(to, es[0]).value && es'[1..] == FixAll(to, es[1..]).value;
    }
  }

  /** An aggregation over re-indexed rows fills its buffer as the original does over the original rows. */
  lemma {:induction false} FixKeepsAggregates(lib: Library, from: Schema, rows: seq<Row>, to: Schema, rows': seq<Row>, fn: string, child: Expr)
    requires |rows| == |rows'| && forall k :: 0 <= k < |rows| ==> Agree(from, rows[k], to, rows'[k])
    requires Resolved(from, child) && !ContainsAgg(child) && FixFieldIndexes(to, child).Ok?
    ensures FixFieldIndexes(to, Agg(fn, child)) == Ok(Agg(fn, FixFieldIndexes(to, child).value))
    ensures Accumulate(lib, fn, FixFieldIndexes(to, child).value, rows') == Accumulate(lib, fn, child, rows)
    decreases |rows|
  {
    if rows != [] {
      var n := |rows| - 1;
      FixKeepsAggregates(lib, from, rows[..n], to, rows'[..n], fn, child);
      FixKeepsMeaning(lib, from, rows[n], to, rows'[n], child);
    }
  }

  // ---------------------------------------------------------------- when the rewrite succeeds

  ghost predicate Known(schema: Schema, table: string, name: string) {
    exists i :: IsColumn(schema, i, table, name)
  }

  /** The rewrite fails exactly when some reference names a column the schema does not have. */
  lemma {:induction false} FixSucceedsIffKnown(schema: Schema, e: Expr)
    ensures FixFieldIndexes(schema, e).Ok? <==> forall f :: f in Fields(e) ==> Known(schema, f.table, f.name)
    decreases e, 1
  {
    match e
    case GetField(i, t, n) =>
      assert Field(i, t, n) in Fields(e);
      assert Find(schema, t, n).Some? ==> IsColumn(schema, Find(schema, t, n).value, t, n);
    case Literal(_) =>
    case And(l, r) => FixSucceedsIffKnown(schema, l); FixSucceedsIffKnown(schema, r);
    case Or(l, r) => FixSucceedsIffKnown(schema, l); FixSucceedsIffKnown(schema, r);
    case Compare(_, l, r) => FixSucceedsIffKnown(schema, l); FixSucceedsIffKnown(schema, r);
    case Not(c) => FixSucceedsIffKnown(schema, c);
    case Alias(_, c) => FixSucceedsIffKnown(schema, c);
    case Agg(_, c) => FixSucceedsIffKnown(schema, c);
    case Call(_, args) => FixAllSucceedsIffKnown(schema, args);
  }

  lemma {:induction false} FixAllSucceedsIffKnown(schema: Schema, es: seq<Expr>)
    ensures FixAll(schema, es).Ok? <==> forall f :: f in FieldsOfAll(es) ==> Known(schema, f.table, f.name)
    decreases es, 0
  {
    if es != [] {
      FixSucceedsIffKnown(schema, es[0]);
      FixAllSucceedsIffKnown(schema, es[1..]);
    }
  }

  /** The trees differ in the indexes of their column references at most. */
  predicate SameButIndexes(e: Expr, e': Expr)
    decreases e, 1
  {
    match e
    case GetField(_, t, n) => e'.GetField? && e'.table == t && e'.name == n
    case Literal(v) => e' == e
    case And(l, r) => e'.And? && SameButIndexes(l, e'.left) && SameButIndexes(r, e'.right)
    case Or(l, r) => e'.Or? && SameButIndexes(l, e'.left) && SameButIndexes(r, e'.right)
    case Compare(op, l, r) => e'.Compare? && e'.op == op && SameButIndexes(l, e'.left) && SameButIndexes(r, e'.right)
    case Not(c) => e'.Not? && SameButIndexes(c, e'.child)
    case Alias(n, c) => e'.Alias? && e'.alias == n && SameButIndexes(c, e'.child)
    case Agg(fn, c) => e'.Agg? && e'.fn == fn && SameButIndexes(c, e'.child)
    case Call(fn, args) => e'.Call? && e'.fn == fn && AllSameButIndexes(args, e'.args)
  }

  predicate AllSameButIndexes(es: seq<Expr>, es': seq<Expr>)
    decreases es, 0
  {
    |es| == |es'| && (es == [] || (SameButIndexes(es[0], es'[0]) && AllSameButIndexes(es[1..], es'[1..])))
  }

  /** The rewrite changes nothing but indexes; where it fails, the error names a column the schema does not have. */
  lemma {:induction false} FixChangesIndexes(schema: Schema, e: Expr)
    ensures FixFieldIndexes(schema, e).Ok? ==> SameButIndexes(e, FixFieldIndexes(schema, e).value)
    ensures FixFieldIndexes(schema, e).Err? ==>
              exists f :: f in Fields(e) && !Known(schema, f.table, f.name) && FixFieldIndexes(schema, e).error == FieldMissing(f.name)
    decreases e, 1
  {
    match e
    case GetField(i, t, n) => assert Field(i, t, n) in Fields(e);
    case Literal(_) =>
    case And(l, r) => FixChangesIndexes(schema, l); FixChangesIndexes(schema, r);
    case Or(l, r) => FixChangesIndexes(schema, l); FixChangesIndexes(schema, r);
    case Compare(_, l, r) => FixChangesIndexes(schema, l); FixChangesIndexes(schema, r);
    case Not(c) => FixChangesIndexes(schema, c);
    case Alias(_, c) => FixChangesIndexes(schema, c);
    case Agg(_, c) => FixChangesIndexes(schema, c);
    case Call(_, args) => FixAllChangesIndexes(schema, args);
  }

  lemma {:induction false} FixAllChangesIndexes(schema: Schema, es: seq<Expr>)
    ensures FixAll(schema, es).Ok? ==> AllSameButIndexes(es, FixAll(schema, es).value)
    ensures FixAll(schema, es).Err? ==>
              exists f :: f in FieldsOfAll(es) && !Known(schema, f.table, f.name) && FixAll(schema, es).error == FieldMissing(f.name)
    decreases es, 0
  {
    if es != [] {
      FixChangesIndexes(schema, es[0]);
      FixAllChangesIndexes(schema, es[1..]);
      if FixAll(schema, es).Ok? {
        var es' := FixAll(schema, es).value;
        assert es'[0] == FixFieldIndexes(schema, es[0]).value && es'[1..] == FixAll(schema, es[1..]).value;
      }
    }
  }

  /** Rewriting twice is rewriting once. */
  lemma {:induction false} FixIsIdempotent(schema: Schema, e: Expr)
    requires FixFieldIndexes(schema, e).Ok?
    ensures FixFieldIndexes(schema, FixFieldIndexes(schema, e).value) == FixFieldIndexes(schema, e)
    decreases e, 1
  {
    match e
    case GetField(_, _, _) =>
    case Literal(_) =>
    case And(l, r) => FixIsIdempotent(schema, l); FixIsIdempotent(schema, r);
    case Or(l, r) => FixIsIdempotent(schema, l); FixIsIdempotent(schema, r);
    case Compare(_, l, r) => FixIsIdempotent(schema, l); FixIsIdempotent(schema, r);
    case Not(c) => FixIsIdempotent(schema, c);
    case Alias(_, c) => FixIsIdempotent(schema, c);
    case Agg(_, c) => FixIsIdempotent(schema, c);
    case Call(_, args) => FixAllIsIdempotent(schema, args);
  }

  lemma {:induction false} FixAllIsIdempotent(schema: Schema, es: seq<Expr>)
    requires FixAll(schema, es).Ok?
    ensures FixAll(schema, FixAll(schema, es).value) == FixAll(schema, es)
    decreases es, 0
  {
    if es != [] {
      FixIsIdempotent(schema, es[0]);
      FixAllIsIdempotent(schema, es[1..]);
      var es' := FixAll(schema, es).value;
      assert es'[0] == FixFieldIndexes(schema, es[0]).value && es'[1..] == FixAll(schema, es[1..]).value;
    }
  }

  /** FixFieldIndexesOnExpressions: each expression rewritten in its place, or the first error. */
  method FixFieldIndexesOnExpressions(schema: Schema, expressions: seq<Expr>) returns (r: Result<seq<Expr>, Error>)
    ensures r.Ok? ==>
              && |r.value| == |expressions|
              && forall i :: 0 <= i < |expressions| ==> FixFieldIndexes(schema, expressions[i]) == Ok(r.value[i])
    ensures r.Err? ==>
              exists i :: && 0 <= i < |expressions| && FixFieldIndexes(schema, expressions[i]) == Err(r.error)
                          && forall k :: 0 <= k < i ==> FixFieldIndexes(schema, expressions[k]).Ok?
  {
    var result: seq<Expr> := [];
    for i := 0 to |expressions|
      invariant |result| == i
      invariant forall k :: 0 <= k < i ==> FixFieldIndexes(schema, expressions[k]) == Ok(result[k])
    {
      var fixed := FixFieldIndexes(schema, expressions[i]);
      if fixed.Err? {
        return Err(fixed.error);
      }
      result := result + [fixed.value];
    }
    return Ok(result);
  }
}
