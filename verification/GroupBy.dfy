/**
 Flattening of aggregations, from sql/analyzer/aggregations.go: a GroupBy whose projections hide
 aggregations inside larger expressions becomes a Project over a GroupBy of the bare
 aggregations. The GroupBy node itself evaluates as sql/plan/group_by.go does.
 */
module GroupBy {
  import opened Wrappers
  import opened Expressions

  type RowResult = Result<Row, Error>

  /** A GroupBy, or a Project over a GroupBy, on the rows of a child. */
  datatype Plan =
    | GroupByPlan(selected: seq<Expr>, grouping: seq<Expr>)
    | ProjectPlan(projections: seq<Expr>, selected: seq<Expr>, grouping: seq<Expr>)

  // ---------------------------------------------------------------- evaluating a GroupBy over one group

  /** An expression that is no aggregation: evaluated on every row, the last value stays in the buffer. */
  function LastValue(lib: Library, e: Expr, rows: seq<Row>): EvalResult {
    if rows == [] then Ok(Null)
    else
      match Both(LastValue(lib, e, rows[..|rows| - 1]), Eval(lib, e, rows[|rows| - 1]))
      case Err(x) => Err(x)
      case Ok((_, v)) => Ok(v)
  }

  function AggValue(lib: Library, fn: string, child: Expr, rows: seq<Row>): EvalResult {
    match Accumulate(lib, fn, child, rows)
    case Err(x) => Err(x)
    case Ok(buffer) => lib.evalBuffer(fn, buffer)
  }

  /** fillBuffer, updateBuffer and evalBuffer for one selected expression. */
  function SelectedValue(lib: Library, e: Expr, rows: seq<Row>): EvalResult {
    match e
    case Agg(fn, c) => AggValue(lib, fn, c, rows)
    case Alias(_, c) => SelectedValue(lib, c, rows)
    case _ => LastValue(lib, e, rows)
  }

  /** All values, or the first error. */
  function Collect(rs: seq<EvalResult>): (r: RowResult)
    ensures r.Ok? <==> forall i :: 0 <= i < |rs| ==> rs[i].Ok?
    ensures r.Ok? ==> |r.value| == |rs| && forall i :: 0 <= i < |rs| ==> rs[i] == Ok(r.value[i])
  {
    if rs == [] then Ok([])
    else
      match Both(Collect(rs[..|rs| - 1]), rs[|rs| - 1])
      case Err(x) => Err(x)
      case Ok((vs, v)) => Ok(vs + [v])
  }

  /** The row a GroupBy yields for one group. */
  function GroupRow(lib: Library, selected: seq<Expr>, rows: seq<Row>): RowResult {
    Collect(SelectedValues(lib, selected, rows))
  }

  function SelectedValues(lib: Library, selected: seq<Expr>, rows: seq<Row>): seq<EvalResult> {
    seq(|selected|, i requires 0 <= i < |selected| => SelectedValue(lib, selected[i], rows))
  }

  /** The row a Project yields for a row of its child. */
  function ProjectRow(lib: Library, projections: seq<Expr>, row: Row): RowResult {
    Collect(Values(lib, projections, row))
  }

  function Values(lib: Library, es: seq<Expr>, row: Row): seq<EvalResult> {
    seq(|es|, i requires 0 <= i < |es| => Eval(lib, es[i], row))
  }

  /** What a plan yields for one group of rows. */
  function PlanRow(lib: Library, plan: Plan, rows: seq<Row>): RowResult {
    match plan
    case GroupByPlan(selected, _) => GroupRow(lib, selected, rows)
    case ProjectPlan(projections, selected, _) =>
      match GroupRow(lib, selected, rows)
      case Err(x) => Err(x)
      case Ok(row) => ProjectRow(lib, projections, row)
  }

  // ---------------------------------------------------------------- the meaning of a projection over a group

  /** The expression with every aggregation replaced by its value over the group. */
  function Plug(lib: Library, e: Expr, rows: seq<Row>): Result<Expr, Error>
    decreases e, 1
  {
    match e
    case GetField(_, _, _) => Ok(e)
    case Literal(_) => Ok(e)
    case And(l, r) =>
      (match Both(Plug(lib, l, rows), Plug(lib, r, rows)) case Err(x) => Err(x) case Ok((a, b)) => Ok(And(a, b)))
    case Or(l, r) =>
      (match Both(Plug(lib, l, rows), Plug(lib, r, rows)) case Err(x) => Err(x) case Ok((a, b)) => Ok(Or(a, b)))
    case Compare(op, l, r) =>
      (match Both(Plug(lib, l, rows), Plug(lib, r, rows)) case Err(x) => Err(x) case Ok((a, b)) => Ok(Compare(op, a, b)))
    case Not(c) => (match Plug(lib, c, rows) case Err(x) => Err(x) case Ok(a) => Ok(Not(a)))
    case Alias(n, c) => (match Plug(lib, c, rows) case Err(x) => Err(x) case Ok(a) => Ok(Alias(n, a)))
    case Agg(fn, c) => (match AggValue(lib, fn, c, rows) case Err(x) => Err(x) case Ok(v) => Ok(Literal(v)))
    case Call(fn, args) => (match PlugAll(lib, args, rows) case Err(x) => Err(x) case Ok(as') => Ok(Call(fn, as')))
  }

  function PlugAll(lib: Library, es: seq<Expr>, rows: seq<Row>): Result<seq<Expr>, Error>
    decreases es, 0
  {
    if es == [] then Ok([])
    else
      match Both(Plug(lib, es[0], rows), PlugAll(lib, es[1..], rows))
      case Err(x) => Err(x)
      case Ok((a, rest)) => Ok([a] + rest)
  }

  function LastRow(rows: seq<Row>): Row {
    if rows == [] then [] else rows[|rows| - 1]
  }

  /**
   The value of a projection over a group: aggregations stand for their value over the group,
   everything else reads the last row, and a projection without aggregations is NULL on no rows.
   */
  function Meaning(lib: Library, p: Expr, rows: seq<Row>): EvalResult {
    if !ContainsAgg(p) then SelectedValue(lib, p, rows)
    else
      match Plug(lib, p, rows)
      case Err(x) => Err(x)
      case Ok(q) => Eval(lib, q, LastRow(rows))
  }

  function OriginalRow(lib: Library, projection: seq<Expr>, rows: seq<Row>): RowResult {
    Collect(Meanings(lib, projection, rows))
  }

  function Meanings(lib: Library, projection: seq<Expr>, rows: seq<Row>): seq<EvalResult> {
    seq(|projection|, i requires 0 <= i < |projection| => Meaning(lib, projection[i], rows))
  }

  // ---------------------------------------------------------------- the rewrite

  /** TransformUp with the closure of flattenedGroupBy: each aggregation moves to the end of `aggs`. */
  function Flatten(render: Expr -> string, e: Expr, aggs: seq<Expr>): (Expr, seq<Expr>)
    decreases e, 1
  {
    match e
    case GetField(_, _, _) => (e, aggs)
    case Literal(_) => (e, aggs)
    case And(l, r) =>
      var (l', a1) := Flatten(render, l, aggs); var (r', a2) := Flatten(render, r, a1); (And(l', r'), a2)
    case Or(l, r) =>
      var (l', a1) := Flatten(render, l, aggs); var (r', a2) := Flatten(render, r, a1); (Or(l', r'), a2)
    case Compare(op, l, r) =>
      var (l', a1) := Flatten(render, l, aggs); var (r', a2) := Flatten(render, r, a1); (Compare(op, l', r'), a2)
    case Not(c) => var (c', a) := Flatten(render, c, aggs); (Not(c'), a)
    case Alias(n, c) => var (c', a) := Flatten(render, c, aggs); (Alias(n, c'), a)
    case Agg(fn, c) =>
      var (c', a) := Flatten(render, c, aggs);
      (GetField(|a|, "", render(Agg(fn, c'))), a + [Agg(fn, c')])
    case Call(fn, args) => var (args', a) := FlattenAll(render, args, aggs); (Call(fn, args'), a)
  }

  function FlattenAll(render: Expr -> string, es: seq<Expr>, aggs: seq<Expr>): (seq<Expr>, seq<Expr>)
    decreases es, 0
  {
    if es == [] then ([], aggs)
    else
      var (e', a1) := Flatten(render, es[0], aggs);
      var (rest, a2) := FlattenAll(render, es[1..], a1);
      ([e'] + rest, a2)
  }

  /** getNameAndSource. */
  function NameOf(render: Expr -> string, e: Expr): string {
    match e
    case GetField(_, _, n) => n
    case Alias(n, _) => n
    case _ => render(e)
  }

  function SourceOf(e: Expr): string {
    if e.GetField? then e.table else ""
  }

  /** One turn of the loop: the new projection and the selected expressions so far. */
  function FlattenOne(render: Expr -> string, p: Expr, aggs: seq<Expr>): (Expr, seq<Expr>) {
    var (e, a) := Flatten(render, p, aggs);
    if ContainsAgg(p) then (e, a)
    else (GetField(|a|, SourceOf(e), NameOf(render, e)), a + [e])
  }

  function FlattenProjections(render: Expr -> string, projection: seq<Expr>): (r: (seq<Expr>, seq<Expr>))
    ensures |r.0| == |projection|
  {
    if projection == [] then ([], [])
    else
      var n := |projection| - 1;
      var (before, aggs) := FlattenProjections(render, projection[..n]);
      var (e, aggs') := FlattenOne(render, projection[n], aggs);
      (before + [e], aggs')
  }

  // ---------------------------------------------------------------- which projections can be flattened

  /** No aggregation sits inside another. */
  predicate Unnested(e: Expr)
    decreases e, 1
  {
    match e
    case GetField(_, _, _) => true
    case Literal(_) => true
    case And(l, r) => Unnested(l) && Unnested(r)
    case Or(l, r) => Unnested(l) && Unnested(r)
    case Compare(_, l, r) => Unnested(l) && Unnested(r)
    case Not(c) => Unnested(c)
    case Alias(_, c) => Unnested(c)
    case Agg(_, c) => !ContainsAgg(c)
    case Call(_, args) => AllUnnested(args)
  }

  predicate AllUnnested(es: seq<Expr>)
    decreases es, 0
  {
    es == [] || (Unnested(es[0]) && AllUnnested(es[1..]))
  }

  /** The columns that are read outside every aggregation. */
  function Outside(e: Expr): set<int>
    decreases e, 1
  {
    match e
    case GetField(i, _, _) => {i}
    case Literal(_) => {}
    case And(l, r) => Outside(l) + Outside(r)
    case Or(l, r) => Outside(l) + Outside(r)
    case Compare(_, l, r) => Outside(l) + Outside(r)
    case Not(c) => Outside(c)
    case Alias(_, c) => Outside(c)
    case Agg(_, _) => {}
    case Call(_, args) => OutsideAll(args)
  }

  function OutsideAll(es: seq<Expr>): set<int>
    decreases es, 0
  {
    if es == [] then {} else Outside(es[0]) + OutsideAll(es[1..])
  }

  predicate Flattenable(p: Expr) {
    Unnested(p) && (ContainsAgg(p) ==> Outside(p) == {})
  }

  function ReadAt(row: Row, i: int): EvalResult {
    if 0 <= i < |row| then Ok(row[i]) else Err(IndexOutOfBounds)
  }

  /** Each of the columns has the same value in both rows, or is out of range in both. */
  predicate SameReads(columns: set<int>, g: Row, row: Row) {
    forall i :: i in columns ==> ReadAt(g, i) == ReadAt(row, i)
  }

  /** On this group row, the columns outside aggregations happen to read what they read in the last row of the group. */
  predicate FlattenableOn(p: Expr, g: Row, rows: seq<Row>) {
    Unnested(p) && (ContainsAgg(p) ==> SameReads(Outside(p), g, LastRow(rows)))
  }

  predicate AllFlattenableOn(projection: seq<Expr>, g: Row, rows: seq<Row>) {
    forall i :: 0 <= i < |projection| ==> FlattenableOn(projection[i], g, rows)
  }

  // ---------------------------------------------------------------- proof

  /** A tree without aggregations is left as it is. */
  lemma {:induction false} FlattenIdentity(render: Expr -> string, e: Expr, aggs: seq<Expr>)
    requires !ContainsAgg(e)
    ensures Flatten(render, e, aggs) == (e, aggs)
    decreases e, 1
  {
    match e
    case And(l, r) => FlattenIdentity(render, l, aggs); FlattenIdentity(render, r, aggs);
    case Or(l, r) => FlattenIdentity(render, l, aggs); FlattenIdentity(render, r, aggs);
    case Compare(_, l, r) => FlattenIdentity(render, l, aggs); FlattenIdentity(render, r, aggs);
    case Not(c) => FlattenIdentity(render, c, aggs);
    case Alias(_, c) => FlattenIdentity(render, c, aggs);
    case Call(_, args) => FlattenAllIdentity(render, args, aggs);
    case _ =>
  }

  lemma {:induction false} FlattenAllIdentity(render: Expr -> string, es: seq<Expr>, aggs: seq<Expr>)
    requires !AnyContainsAgg(es)
    ensures FlattenAll(render, es, aggs) == (es, aggs)
    decreases es, 0
  {
    if es != [] {
      FlattenIdentity(render, es[0], aggs);
      FlattenAllIdentity(render, es[1..], aggs);
      assert es == [es[0]] + es[1..];
    }
  }

  /** The transformed flag of the loop: something was appended exactly when the tree has an aggregation. */
  lemma {:induction false} FlattenGrows(render: Expr -> string, e: Expr, aggs: seq<Expr>)
    ensures aggs <= Flatten(render, e, aggs).1
    ensures ContainsAgg(e) <==> |aggs| < |Flatten(render, e, aggs).1|
    decreases e, 1
  {
    match e
    case GetField(_, _, _) =>
    case Literal(_) =>
    case And(l, r) => FlattenGrows(render, l, aggs); FlattenGrows(render, r, Flatten(render, l, aggs).1);
    case Or(l, r) => FlattenGrows(render, l, aggs); FlattenGrows(render, r, Flatten(render, l, aggs).1);
    case Compare(_, l, r) => FlattenGrows(render, l, aggs); FlattenGrows(render, r, Flatten(render, l, aggs).1);
    case Not(c) => FlattenGrows(render, c, aggs);
    case Alias(_, c) => FlattenGrows(render, c, aggs);
    case Agg(_, c) => FlattenGrows(render, c, aggs);
    case Call(_, args) => FlattenAllGrows(render, args, aggs);
  }

  lemma {:induction false} FlattenAllGrows(render: Expr -> string, es: seq<Expr>, aggs: seq<Expr>)
    ensures aggs <= FlattenAll(render, es, aggs).1
    ensures AnyContainsAgg(es) <==> |aggs| < |FlattenAll(render, es, aggs).1|
    decreases es, 0
  {
    if es != [] {
      FlattenGrows(render, es[0], aggs);
      FlattenAllGrows(render, es[1..], Flatten(render, es[0], aggs).1);
    }
  }

  /** `a` extends `aggs` by expressions that all have a value over the group exactly when `ok`. */
  ghost predicate Extends(lib: Library, aggs: seq<Expr>, a: seq<Expr>, rows: seq<Row>, ok: bool) {
    && aggs <= a
    && (ok <==> forall k :: |aggs| <= k < |a| ==> SelectedValue(lib, a[k], rows).Ok?)
  }

  lemma ExtendsTrans(lib: Library, a: seq<Expr>, b: seq<Expr>, c: seq<Expr>, rows: seq<Row>, ok1: bool, ok2: bool)
    requires Extends(lib, a, b, rows, ok1) && Extends(lib, b, c, rows, ok2)
    ensures Extends(lib, a, c, rows, ok1 && ok2)
  {
    assert forall k :: |a| <= k < |b| ==> c[k] == b[k];
  }

  lemma {:induction false} FlattenAppends(lib: Library, render: Expr -> string, e: Expr, aggs: seq<Expr>, rows: seq<Row>)
    requires Unnested(e)
    ensures Extends(lib, aggs, Flatten(render, e, aggs).1, rows, Plug(lib, e, rows).Ok?)
    decreases e, 1
  {
    match e
    case GetField(_, _, _) =>
    case Literal(_) =>
    case And(l, r) =>
      var a1 := Flatten(render, l, aggs).1;
      FlattenAppends(lib, render, l, aggs, rows);
      FlattenAppends(lib, render, r, a1, rows);
      ExtendsTrans(lib, aggs, a1, Flatten(render, r, a1).1, rows, Plug(lib, l, rows).Ok?, Plug(lib, r, rows).Ok?);
    case Or(l, r) =>
      var a1 := Flatten(render, l, aggs).1;
      FlattenAppends(lib, render, l, aggs, rows);
      FlattenAppends(lib, render, r, a1, rows);
      ExtendsTrans(lib, aggs, a1, Flatten(render, r, a1).1, rows, Plug(lib, l, rows).Ok?, Plug(lib, r, rows).Ok?);
    case Compare(_, l, r) =>
      var a1 := Flatten(render, l, aggs).1;
      FlattenAppends(lib, render, l, aggs, rows);
      FlattenAppends(lib, render, r, a1, rows);
      ExtendsTrans(lib, aggs, a1, Flatten(render, r, a1).1, rows, Plug(lib, l, rows).Ok?, Plug(lib, r, rows).Ok?);
    case Not(c) => FlattenAppends(lib, render, c, aggs, rows);
    case Alias(_, c) => FlattenAppends(lib, render, c, aggs, rows);
    case Agg(fn, c) =>
      FlattenIdentity(render, c, aggs);
      assert (aggs + [e])[|aggs|] == e;
    case Call(_, args) => FlattenAllAppends(lib, render, args, aggs, rows);
  }

  lemma {:induction false} FlattenAllAppends(lib: Library, render: Expr -> string, es: seq<Expr>, aggs: seq<Expr>, rows: seq<Row>)
    requires AllUnnested(es)
    ensures Extends(lib, aggs, FlattenAll(render, es, aggs).1, rows, PlugAll(lib, es, rows).Ok?)
    decreases es, 0
  {
    if es != [] {
      var a1 := Flatten(render, es[0], aggs).1;
      FlattenAppends(lib, render, es[0], aggs, rows);
      FlattenAllAppends(lib, render, es[1..], a1, rows);
      ExtendsTrans(lib, aggs, a1, FlattenAll(render, es[1..], a1).1, rows,
                   Plug(lib, es[0], rows).Ok?, PlugAll(lib, es[1..], rows).Ok?);
    }
  }

  /** The row `g` holds, from `from` on, the values over the group of the selected expressions `a`. */
  ghost predicate Holds(lib: Library, a: seq<Expr>, rows: seq<Row>, g: Row, from: nat, to: nat) {
    to <= |a| && to <= |g| && forall k :: from <= k < to ==> SelectedValue(lib, a[k], rows) == Ok(g[k])
  }

  lemma {:induction false} FlattenKeepsValue(lib: Library, render: Expr -> string, e: Expr, aggs: seq<Expr>, all: seq<Expr>, rows: seq<Row>, g: Row, row: Row)
    requires Unnested(e) && SameReads(Outside(e), g, row)
    requires Flatten(render, e, aggs).1 <= all
    requires Holds(lib, all, rows, g, |aggs|, |Flatten(render, e, aggs).1|)
    ensures Plug(lib, e, rows).Ok?
    ensures Eval(lib, Flatten(render, e, aggs).0, g) == Eval(lib, Plug(lib, e, rows).value, row)
    decreases e, 1
  {
    match e
    case GetField(i, _, _) => assert ReadAt(g, i) == ReadAt(row, i);
    case Literal(_) =>
    case And(l, r) => FlattenKeepsBoth(lib, render, e, l, r, aggs, all, rows, g, row);
    case Or(l, r) => FlattenKeepsBoth(lib, render, e, l, r, aggs, all, rows, g, row);
    case Compare(_, l, r) => FlattenKeepsBoth(lib, render, e, l, r, aggs, all, rows, g, row);
    case Not(c) => FlattenKeepsValue(lib, render, c, aggs, all, rows, g, row);
    case Alias(_, c) => FlattenKeepsValue(lib, render, c, aggs, all, rows, g, row);
    case Agg(fn, c) =>
      FlattenIdentity(render, c, aggs);
      assert all[|aggs|] == (aggs + [e])[|aggs|] == e;
    case Call(_, args) => FlattenAllKeepsValues(lib, render, args, aggs, all, rows, g, row);
  }

  /** The two sides of an operator, one after the other. */
  lemma {:induction false} FlattenKeepsBoth(lib: Library, render: Expr -> string, e: Expr, l: Expr, r: Expr, aggs: seq<Expr>, all: seq<Expr>, rows: seq<Row>, g: Row, row: Row)
    requires l < e && r < e && Unnested(l) && Unnested(r) && SameReads(Outside(l) + Outside(r), g, row)
    requires var a2 := Flatten(render, r, Flatten(render, l, aggs).1).1;
             a2 <= all && Holds(lib, all, rows, g, |aggs|, |a2|)
    ensures Plug(lib, l, rows).Ok? && Plug(lib, r, rows).Ok?
    ensures var (l', a1) := Flatten(render, l, aggs);
            && Eval(lib, l', g) == Eval(lib, Plug(lib, l, rows).value, row)
            && Eval(lib, Flatten(render, r, a1).0, g) == Eval(lib, Plug(lib, r, rows).value, row)
    decreases e, 0
  {
    var a1 := Flatten(render, l, aggs).1;
    FlattenAppends(lib, render, l, aggs, rows);
    FlattenAppends(lib, render, r, a1, rows);
    FlattenKeepsValue(lib, render, l, aggs, all, rows, g, row);
    FlattenKeepsValue(lib, render, r, a1, all, rows, g, row);
  }

  lemma {:induction false} FlattenAllKeepsValues(lib: Library, render: Expr -> string, es: seq<Expr>, aggs: seq<Expr>, all: seq<Expr>, rows: seq<Row>, g: Row, row: Row)
    requires AllUnnested(es) && SameReads(OutsideAll(es), g, row)
    requires FlattenAll(render, es, aggs).1 <= all
    requires Holds(lib, all, rows, g, |aggs|, |FlattenAll(render, es, aggs).1|)
    ensures PlugAll(lib, es, rows).Ok?
    ensures EvalAll(lib, FlattenAll(render, es, aggs).0, g) == EvalAll(lib, PlugAll(lib, es, rows).value, row)
    decreases es, 0
  {
    if es != [] {
      var (e', a1) := Flatten(render, es[0], aggs);
      var rest := FlattenAll(render, es[1..], a1).0;
      FlattenAppends(lib, render, es[0], aggs, rows);
      FlattenAllAppends(lib, render, es[1..], a1, rows);
      FlattenKeepsValue(lib, render, es[0], aggs, all, rows, g, row);
      FlattenAllKeepsValues(lib, render, es[1..], a1, all, rows, g, row);
      assert ([e'] + rest)[1..] == rest;
      var plugged := PlugAll(lib, es, rows).value;
      assert plugged[1..] == PlugAll(lib, es[1..], rows).value;
    }
  }

  /** Everything a projection needs from its group has a value. */
  predicate Ready(lib: Library, p: Expr, rows: seq<Row>) {
    if ContainsAgg(p) then Plug(lib, p, rows).Ok? else SelectedValue(lib, p, rows).Ok?
  }

  predicate AllReady(lib: Library, projection: seq<Expr>, rows: seq<Row>) {
    forall i :: 0 <= i < |projection| ==> Ready(lib, projection[i], rows)
  }

  lemma FlattenOneAppends(lib: Library, render: Expr -> string, p: Expr, aggs: seq<Expr>, rows: seq<Row>)
    requires Unnested(p)
    ensures Extends(lib, aggs, FlattenOne(render, p, aggs).1, rows, Ready(lib, p, rows))
  {
    if ContainsAgg(p) {
      FlattenAppends(lib, render, p, aggs, rows);
    } else {
      FlattenIdentity(render, p, aggs);
      assert (aggs + [p])[|aggs|] == p;
    }
  }

  lemma FlattenOneKeepsMeaning(lib: Library, render: Expr -> string, p: Expr, aggs: seq<Expr>, all: seq<Expr>, rows: seq<Row>, g: Row)
    requires FlattenableOn(p, g, rows)
    requires FlattenOne(render, p, aggs).1 <= all
    requires Holds(lib, all, rows, g, 0, |all|)
    ensures Eval(lib, FlattenOne(render, p, aggs).0, g) == Meaning(lib, p, rows)
  {
    if ContainsAgg(p) {
      FlattenKeepsValue(lib, render, p, aggs, all, rows, g, LastRow(rows));
    } else {
      FlattenIdentity(render, p, aggs);
      assert all[|aggs|] == (aggs + [p])[|aggs|] == p;
    }
  }

  lemma {:induction false} ProjectionsAppend(lib: Library, render: Expr -> string, projection: seq<Expr>, rows: seq<Row>)
    requires forall i :: 0 <= i < |projection| ==> Unnested(projection[i])
    ensures Extends(lib, [], FlattenProjections(render, projection).1, rows, AllReady(lib, projection, rows))
  {
    if projection != [] {
      var n := |projection| - 1;
      ProjectionsAppend(lib, render, projection[..n], rows);
      var aggs := FlattenProjections(render, projection[..n]).1;
      FlattenOneAppends(lib, render, projection[n], aggs, rows);
      ExtendsTrans(lib, [], aggs, FlattenProjections(render, projection).1, rows,
                   AllReady(lib, projection[..n], rows), Ready(lib, projection[n], rows));
      assert projection == projection[..n] + [projection[n]];
    }
  }

  lemma {:induction false} ProjectionsKeepMeaning(lib: Library, render: Expr -> string, projection: seq<Expr>, all: seq<Expr>, rows: seq<Row>, g: Row, i: nat)
    requires AllFlattenableOn(projection, g, rows)
    requires FlattenProjections(render, projection).1 <= all && Holds(lib, all, rows, g, 0, |all|)
    requires i < |projection|
    ensures Eval(lib, FlattenProjections(render, projection).0[i], g) == Meaning(lib, projection[i], rows)
  {
    var n := |projection| - 1;
    var aggs := FlattenProjections(render, projection[..n]).1;
    FlattenOneAppends(lib, render, projection[n], aggs, rows);
    if i < n {
      ProjectionsKeepMeaning(lib, render, projection[..n], all, rows, g, i);
    } else {
      FlattenOneKeepsMeaning(lib, render, projection[n], aggs, all, rows, g);
    }
  }

  lemma GroupRowSucceeds(lib: Library, selected: seq<Expr>, rows: seq<Row>)
    ensures GroupRow(lib, selected, rows).Ok? <==> Extends(lib, [], selected, rows, true)
    ensures GroupRow(lib, selected, rows).Ok? ==>
              Holds(lib, selected, rows, GroupRow(lib, selected, rows).value, 0, |selected|)
  {
    assert forall k :: 0 <= k < |selected| ==> SelectedValues(lib, selected, rows)[k] == SelectedValue(lib, selected[k], rows);
  }

  /** Both fail, or both yield the same row. */
  predicate SameOutcome<T(==)>(a: Result<T, Error>, b: Result<T, Error>) {
    a.Ok? == b.Ok? && (a.Ok? ==> a.value == b.value)
  }

  function FlattenedPlan(render: Expr -> string, projection: seq<Expr>, grouping: seq<Expr>): Plan {
    var (projections, selected) := FlattenProjections(render, projection);
    ProjectPlan(projections, selected, grouping)
  }

  /**
   On a group, the flattened plan yields the row that the projections mean over it, provided that the
   columns outside aggregations read in the row of the flattened GroupBy what they read in the last
   row of the group.
   */
  lemma FlattenedPlanKeepsMeaningOn(lib: Library, render: Expr -> string, projection: seq<Expr>, grouping: seq<Expr>, rows: seq<Row>)
    requires forall i :: 0 <= i < |projection| ==> Unnested(projection[i])
    requires var group := GroupRow(lib, FlattenProjections(render, projection).1, rows);
             group.Ok? ==> AllFlattenableOn(projection, group.value, rows)
    ensures SameOutcome(PlanRow(lib, FlattenedPlan(render, projection, grouping), rows), OriginalRow(lib, projection, rows))
  {
    var selected := FlattenProjections(render, projection).1;
    GroupReady(lib, render, projection, rows);
    if GroupRow(lib, selected, rows).Ok? {
      ProjectedGroup(lib, render, projection, rows, GroupRow(lib, selected, rows).value);
    } else {
      UnreadyFails(lib, projection, rows);
    }
  }

  /** The flattened GroupBy yields a row exactly when every projection has what it needs from the group. */
  lemma GroupReady(lib: Library, render: Expr -> string, projection: seq<Expr>, rows: seq<Row>)
    requires forall i :: 0 <= i < |projection| ==> Unnested(projection[i])
    ensures GroupRow(lib, FlattenProjections(render, projection).1, rows).Ok? <==> AllReady(lib, projection, rows)
  {
    ProjectionsAppend(lib, render, projection, rows);
    GroupRowSucceeds(lib, FlattenProjections(render, projection).1, rows);
  }

  lemma UnreadyFails(lib: Library, projection: seq<Expr>, rows: seq<Row>)
    requires !AllReady(lib, projection, rows)
    ensures OriginalRow(lib, projection, rows).Err?
  {
    var i :| 0 <= i < |projection| && !Ready(lib, projection[i], rows);
    assert Meanings(lib, projection, rows)[i].Err?;
  }

  lemma ProjectedGroup(lib: Library, render: Expr -> string, projection: seq<Expr>, rows: seq<Row>, g: Row)
    requires GroupRow(lib, FlattenProjections(render, projection).1, rows) == Ok(g) && AllFlattenableOn(projection, g, rows)
    ensures Values(lib, FlattenProjections(render, projection).0, g) == Meanings(lib, projection, rows)
  {
    var (projections, selected) := FlattenProjections(render, projection);
    GroupRowSucceeds(lib, selected, rows);
    forall i | 0 <= i < |projection|
      ensures Eval(lib, projections[i], g) == Meaning(lib, projection[i], rows)
    {
      ProjectionsKeepMeaning(lib, render, projection, selected, rows, g, i);
    }
  }

  /** Where no column is read outside an aggregation, it does so on every group of rows. */
  lemma FlattenedPlanKeepsMeaning(lib: Library, render: Expr -> string, projection: seq<Expr>, grouping: seq<Expr>, rows: seq<Row>)
    requires forall i :: 0 <= i < |projection| ==> Flattenable(projection[i])
    ensures SameOutcome(PlanRow(lib, FlattenedPlan(render, projection, grouping), rows), OriginalRow(lib, projection, rows))
  {
    FlattenedPlanKeepsMeaningOn(lib, render, projection, grouping, rows);
  }

  // ---------------------------------------------------------------- the analyzer rule

  /** flattenedGroupBy. */
  method FlattenedGroupBy(render: Expr -> string, projection: seq<Expr>, grouping: seq<Expr>) returns (plan: Plan)
    ensures plan == FlattenedPlan(render, projection, grouping)
  {
    var aggregate: seq<Expr> := [];
    var newProjection: seq<Expr> := [];
    for i := 0 to |projection|
      invariant (newProjection, aggregate) == FlattenProjections(render, projection[..i])
    {
      var p := projection[i];
      var (e, aggs) := Flatten(render, p, aggregate);
      FlattenGrows(render, p, aggregate);
      var transformed := |aggs| > |aggregate|;
      aggregate := aggs;
      if !transformed {
        aggregate := aggregate + [e];
        newProjection := newProjection + [GetField(|aggregate| - 1, SourceOf(e), NameOf(render, e))];
      } else {
        newProjection := newProjection + [e];
      }
      assert projection[..i + 1][..i] == projection[..i];
    }
    assert projection[..|projection|] == projection;
    return ProjectPlan(newProjection, aggregate, grouping);
  }

  /** containsHiddenAggregation: an aggregation that is not the root of the expression. */
  predicate HidesAgg(e: Expr) {
    !e.Agg? && ContainsAgg(e)
  }

  /** flattenGroupByAggregations on a GroupBy node. */
  function Rule(render: Expr -> string, projection: seq<Expr>, grouping: seq<Expr>): Plan {
    if exists i :: 0 <= i < |projection| && HidesAgg(projection[i]) then FlattenedPlan(render, projection, grouping)
    else GroupByPlan(projection, grouping)
  }

  lemma RuleKeepsMeaning(lib: Library, render: Expr -> string, projection: seq<Expr>, grouping: seq<Expr>, rows: seq<Row>)
    requires forall i :: 0 <= i < |projection| ==> Flattenable(projection[i])
    ensures SameOutcome(PlanRow(lib, Rule(render, projection, grouping), rows), OriginalRow(lib, projection, rows))
  {
    if exists i :: 0 <= i < |projection| && HidesAgg(projection[i]) {
      FlattenedPlanKeepsMeaning(lib, render, projection, grouping, rows);
    } else {
      forall i | 0 <= i < |projection|
        ensures SelectedValues(lib, projection, rows)[i].Ok? == Meanings(lib, projection, rows)[i].Ok?
        ensures SelectedValues(lib, projection, rows)[i] == Meanings(lib, projection, rows)[i]
      {
        assert !HidesAgg(projection[i]);
      }
      assert SelectedValues(lib, projection, rows) == Meanings(lib, projection, rows);
    }
  }

  // ---------------------------------------------------------------- whole queries

  /** A group: the checksum of its grouping values, and its rows in order. */
  datatype Group = Group(key: nat, rows: seq<Row>)

  /** Adding a row to the group with its key, or opening a new group at the end. */
  function AddToGroup(groups: seq<Group>, key: nat, row: Row): seq<Group> {
    if groups == [] then [Group(key, [row])]
    else if groups[0].key == key then [Group(key, groups[0].rows + [row])] + groups[1..]
    else [groups[0]] + AddToGroup(groups[1..], key, row)
  }

  /** The groups of a table in the order they are met; without grouping, one group of all rows. */
  function Groups(lib: Library, checksum: Row -> nat, grouping: seq<Expr>, rows: seq<Row>): Result<seq<Group>, Error> {
    if grouping == [] then Ok([Group(0, rows)])
    else if rows == [] then Ok([])
    else
      var n := |rows| - 1;
      match Both(Groups(lib, checksum, grouping, rows[..n]), EvalAll(lib, grouping, rows[n]))
      case Err(x) => Err(x)
      case Ok((groups, key)) => Ok(AddToGroup(groups, checksum(key), rows[n]))
  }

  /** One output row for each group, or an error. */
  function PerGroup(f: seq<Row> -> RowResult, groups: seq<Group>): Result<seq<Row>, Error> {
    if groups == [] then Ok([])
    else
      match Both(f(groups[0].rows), PerGroup(f, groups[1..]))
      case Err(x) => Err(x)
      case Ok((row, rest)) => Ok([row] + rest)
  }

  function Query(lib: Library, checksum: Row -> nat, plan: Plan, rows: seq<Row>): Result<seq<Row>, Error> {
    match Groups(lib, checksum, plan.grouping, rows)
    case Err(x) => Err(x)
    case Ok(groups) => PerGroup(group => PlanRow(lib, plan, group), groups)
  }

  /** The answer the projections mean: for each group, their row over that group. */
  function QueryMeaning(lib: Library, checksum: Row -> nat, projection: seq<Expr>, grouping: seq<Expr>, rows: seq<Row>): Result<seq<Row>, Error> {
    match Groups(lib, checksum, grouping, rows)
    case Err(x) => Err(x)
    case Ok(groups) => PerGroup(group => OriginalRow(lib, projection, group), groups)
  }

  lemma {:induction false} PerGroupSame(f: seq<Row> -> RowResult, g: seq<Row> -> RowResult, groups: seq<Group>)
    requires forall rows :: SameOutcome(f(rows), g(rows))
    ensures SameOutcome(PerGroup(f, groups), PerGroup(g, groups))
  {
    if groups != [] {
      PerGroupSame(f, g, groups[1..]);
      assert SameOutcome(f(groups[0].rows), g(groups[0].rows));
    }
  }

  /** On every table, the plan the rule leaves answers what the projections mean, group by group. */
  lemma RuleKeepsQuery(lib: Library, checksum: Row -> nat, render: Expr -> string, projection: seq<Expr>, grouping: seq<Expr>, rows: seq<Row>)
    requires forall i :: 0 <= i < |projection| ==> Flattenable(projection[i])
    ensures SameOutcome(Query(lib, checksum, Rule(render, projection, grouping), rows),
                        QueryMeaning(lib, checksum, projection, grouping, rows))
  {
    var plan := Rule(render, projection, grouping);
    forall group: seq<Row>
      ensures SameOutcome(PlanRow(lib, plan, group), OriginalRow(lib, projection, group))
    {
      RuleKeepsMeaning(lib, render, projection, grouping, group);
    }
    var groups := Groups(lib, checksum, grouping, rows);
    if groups.Ok? {
      PerGroupSame(group => PlanRow(lib, plan, group), group => OriginalRow(lib, projection, group), groups.value);
    }
  }

  /** The new projection gives its column the name of the old one: a column's, an alias, or the text of a bare aggregation. */
  predicate SameName(render: Expr -> string, p: Expr, q: Expr) {
    match p
    case GetField(_, table, name) => q.GetField? && q.table == table && q.name == name
    case Alias(name, _) => (q.Alias? && q.alias == name) || (q.GetField? && q.name == name)
    case Agg(_, _) => q.GetField? && q.name == render(p)
    case _ => ContainsAgg(p) || (q.GetField? && q.name == render(p))
  }

  lemma FlattenOneKeepsName(render: Expr -> string, p: Expr, aggs: seq<Expr>)
    requires Unnested(p)
    ensures SameName(render, p, FlattenOne(render, p, aggs).0)
  {
    if !ContainsAgg(p) {
      FlattenIdentity(render, p, aggs);
    } else if p.Agg? {
      FlattenIdentity(render, p.child, aggs);
    }
  }

  /** Flattening keeps the number of the columns and their names, but for expressions around an aggregation without an alias. */
  lemma {:induction false} FlattenKeepsNames(render: Expr -> string, projection: seq<Expr>, i: nat)
    requires i < |projection| && Unnested(projection[i])
    ensures |FlattenProjections(render, projection).0| == |projection|
    ensures SameName(render, projection[i], FlattenProjections(render, projection).0[i])
    decreases |projection|
  {
    var n := |projection| - 1;
    if i < n {
      FlattenKeepsNames(render, projection[..n], i);
    } else {
      FlattenOneKeepsName(render, projection[n], FlattenProjections(render, projection[..n]).1);
    }
  }

  // ---------------------------------------------------------------- columns outside aggregations

  /** The projection `agg(c) op column`, and the plan that flattening makes of it. */
  function Mixed(op: Comparison, fn: string, c: Expr, column: Expr): Expr {
    Compare(op, Agg(fn, c), column)
  }

  lemma MixedFlattened(render: Expr -> string, op: Comparison, fn: string, c: Expr, column: Expr)
    requires !ContainsAgg(c) && column.GetField?
    ensures FlattenProjections(render, [Mixed(op, fn, c, column)]) ==
            ([Compare(op, GetField(0, "", render(Agg(fn, c))), column)], [Agg(fn, c)])
  {
    var agg, field := Agg(fn, c), GetField(0, "", render(Agg(fn, c)));
    FlattenIdentity(render, c, []);
    assert [] + [agg] == [agg];
    assert Flatten(render, agg, []) == (field, [agg]);
    assert Flatten(render, column, [agg]) == (column, [agg]);
    assert ContainsAgg(agg);
    var p := Mixed(op, fn, c, column);
    assert FlattenOne(render, p, []) == (Compare(op, field, column), [agg]);
    assert ([p])[..0] == [] && [] + [Compare(op, field, column)] == [Compare(op, field, column)];
  }

  lemma MixedPlan(lib: Library, render: Expr -> string, op: Comparison, fn: string, c: Expr, column: Expr, rows: seq<Row>)
    requires !ContainsAgg(c) && column.GetField?
    ensures var v := AggValue(lib, fn, c, rows);
            var plan := FlattenedPlan(render, [Mixed(op, fn, c, column)], []);
            PlanRow(lib, plan, rows) ==
            if v.Err? then Err(v.error)
            else Collect([Eval(lib, Compare(op, GetField(0, "", render(Agg(fn, c))), column), [v.value])])
  {
    MixedFlattened(render, op, fn, c, column);
    var v := AggValue(lib, fn, c, rows);
    assert SelectedValues(lib, [Agg(fn, c)], rows) == [v];
    CollectOne(v);
    if v.Ok? {
      var e := Compare(op, GetField(0, "", render(Agg(fn, c))), column);
      assert Values(lib, [e], [v.value]) == [Eval(lib, e, [v.value])];
    }
  }

  lemma MixedOriginal(lib: Library, op: Comparison, fn: string, c: Expr, column: Expr, rows: seq<Row>, v: Value)
    requires column.GetField? && AggValue(lib, fn, c, rows) == Ok(v) && 0 <= column.index < |LastRow(rows)|
    ensures OriginalRow(lib, [Mixed(op, fn, c, column)], rows) == Collect([EvalCompare(lib, op, v, LastRow(rows)[column.index])])
  {
    var p := Mixed(op, fn, c, column);
    assert ContainsAgg(Agg(fn, c));
    assert ContainsAgg(p) && Plug(lib, p, rows) == Ok(Compare(op, Literal(v), column));
    var row := LastRow(rows);
    assert Eval(lib, Literal(v), row) == Ok(v) && Eval(lib, column, row) == Ok(row[column.index]);
    assert Eval(lib, Compare(op, Literal(v), column), row) == EvalCompare(lib, op, v, row[column.index]);
    assert Meaning(lib, p, rows) == EvalCompare(lib, op, v, row[column.index]);
    assert Meanings(lib, [p], rows) == [EvalCompare(lib, op, v, LastRow(rows)[column.index])];
  }

  lemma CollectOne(r: EvalResult)
    ensures Collect([r]) == if r.Ok? then Ok([r.value]) else Err(r.error)
  {
    assert ([r])[..0] == [];
    if r.Ok? {
      assert [] + [r.value] == [r.value];
    }
  }

  /** A column past the first is out of range in the row of the flattened GroupBy: the plan fails where the original yields a row. */
  lemma OutsideColumnIsLost(lib: Library, render: Expr -> string, op: Comparison, fn: string, c: Expr, column: Expr, rows: seq<Row>)
    requires !ContainsAgg(c) && column.GetField? && 1 <= column.index < |LastRow(rows)|
    requires AggValue(lib, fn, c, rows).Ok?
    requires EvalCompare(lib, op, AggValue(lib, fn, c, rows).value, LastRow(rows)[column.index]).Ok?
    ensures OriginalRow(lib, [Mixed(op, fn, c, column)], rows).Ok?
    ensures PlanRow(lib, FlattenedPlan(render, [Mixed(op, fn, c, column)], []), rows).Err?
  {
    var v := AggValue(lib, fn, c, rows).value;
    MixedPlan(lib, render, op, fn, c, column, rows);
    MixedOriginal(lib, op, fn, c, column, rows, v);
    CollectOne(EvalCompare(lib, op, v, LastRow(rows)[column.index]));
    CollectOne(Eval(lib, Compare(op, GetField(0, "", render(Agg(fn, c))), column), [v]));
  }

  /** The first column is read as the value of the aggregation: the plan compares the aggregation with itself. */
  lemma FirstColumnIsMistaken(lib: Library, render: Expr -> string, op: Comparison, fn: string, c: Expr, column: Expr, rows: seq<Row>)
    requires !ContainsAgg(c) && column.GetField? && column.index == 0 < |LastRow(rows)|
    requires AggValue(lib, fn, c, rows).Ok?
    ensures var v := AggValue(lib, fn, c, rows).value;
            && OriginalRow(lib, [Mixed(op, fn, c, column)], rows) == Collect([EvalCompare(lib, op, v, LastRow(rows)[0])])
            && PlanRow(lib, FlattenedPlan(render, [Mixed(op, fn, c, column)], []), rows) == Collect([EvalCompare(lib, op, v, v)])
  {
    MixedPlan(lib, render, op, fn, c, column, rows);
    MixedOriginal(lib, op, fn, c, column, rows, AggValue(lib, fn, c, rows).value);
  }

  /** A library whose aggregation always yields 5 and whose comparison knows equality only. */
  const FIVE := Library((_, _) => Ok(Null), (l, r) => Ok(if l == r then 0 else 1), _ => None,
                        _ => [], (_, b, _) => Ok(b), (_, _) => Ok(Int(5)))

  /** On a table with the row (6, 7), `agg(1) = b` fails and `agg(1) = a` is answered wrongly. */
  lemma OutsideColumnsGoWrong(render: Expr -> string, a: Expr, b: Expr, rows: seq<Row>)
    requires a == GetField(0, "t", "a") && b == GetField(1, "t", "b") && rows == [[Int(6), Int(7)]]
    ensures OriginalRow(FIVE, [Mixed(Equals, "agg", Literal(Int(1)), b)], rows) == Ok([Bool(false)])
    ensures PlanRow(FIVE, FlattenedPlan(render, [Mixed(Equals, "agg", Literal(Int(1)), b)], []), rows).Err?
    ensures OriginalRow(FIVE, [Mixed(Equals, "agg", Literal(Int(1)), a)], rows) == Ok([Bool(false)])
    ensures PlanRow(FIVE, FlattenedPlan(render, [Mixed(Equals, "agg", Literal(Int(1)), a)], []), rows) == Ok([Bool(true)])
  {
    var one := Literal(Int(1));
    assert rows[..0] == [];
    assert Accumulate(FIVE, "agg", one, rows) == Ok([]);
    assert AggValue(FIVE, "agg", one, rows) == Ok(Int(5));
    MixedOriginal(FIVE, Equals, "agg", one, b, rows, Int(5));
    OutsideColumnIsLost(FIVE, render, Equals, "agg", one, b, rows);
    FirstColumnIsMistaken(FIVE, render, Equals, "agg", one, a, rows);
    CollectOne(EvalCompare(FIVE, Equals, Int(5), Int(7)));
    CollectOne(EvalCompare(FIVE, Equals, Int(5), Int(6)));
    CollectOne(EvalCompare(FIVE, Equals, Int(5), Int(5)));
  }
}
