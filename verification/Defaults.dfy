/** Column defaults and how a row is completed with them, from sql/columndefault.go and engine.go. */
module Defaults {
  import opened Wrappers
  import opened Expressions
  import opened Picking

  /** A type's Convert. */
  type Conversion = Value -> EvalResult

  /** Implicit is the nil default. `convert` is absent until the default has its type. */
  datatype Default =
    | Implicit
    | Default(expr: Expr, convert: Option<Conversion>, literal: bool, returnNil: bool)

  datatype Column = Column(name: string, convert: Conversion, default: Default)

  const NULL_DEFAULT := Failed("default value attempted to return null but column is non-nullable")

  function EvalDefault(lib: Library, d: Default, row: Row): EvalResult {
    match d
    case Implicit => Ok(Null)
    case Default(expr, convert, _, returnNil) =>
      match Eval(lib, expr, row)
      case Err(x) => Err(x)
      case Ok(v) =>
        match (if convert.Some? then convert.value(v) else Ok(v))
        case Err(x) => Err(x)
        case Ok(w) => if w == Null && !returnNil then Err(NULL_DEFAULT) else Ok(w)
  }

  predicate IsLiteral(d: Default) {
    d.Implicit? || d.literal
  }

  /** The value a column gets when it is left out of a row. */
  function DefaultValue(lib: Library, c: Column, row: Row): EvalResult {
    match EvalDefault(lib, c.default, row)
    case Err(x) => Err(x)
    case Ok(v) => c.convert(v)
  }

  /** The value of a default before the column converts it: NULL for none, and NULL for a stated one only where that may be. */
  predicate Offers(lib: Library, d: Default, row: Row, v: Value) {
    match d
    case Implicit => v == Null
    case Default(expr, convert, _, returnNil) =>
      && Eval(lib, expr, row).Ok?
      && (convert.None? ==> Eval(lib, expr, row) == Ok(v))
      && (convert.Some? ==> convert.value(Eval(lib, expr, row).value) == Ok(v))
      && (v == Null ==> returnNil)
  }

  /** A column gets a value exactly when its default offers one that the column's type converts to it. */
  ghost predicate Gets(lib: Library, c: Column, row: Row, v: Value) {
    exists w :: Offers(lib, c.default, row, w) && c.convert(w) == Ok(v)
  }

  /** Why a default yields nothing: its expression, one of the two conversions, or a NULL that may not be. */
  predicate Refuses(lib: Library, c: Column, row: Row, x: Error) {
    match c.default
    case Implicit => c.convert(Null) == Err(x)
    case Default(expr, convert, _, returnNil) =>
      match Eval(lib, expr, row)
      case Err(e) => x == e
      case Ok(v) =>
        var w := if convert.Some? then convert.value(v) else Ok(v);
        || w == Err(x)
        || (w == Ok(Null) && !returnNil && x == NULL_DEFAULT)
        || (w.Ok? && (w.value == Null ==> returnNil) && c.convert(w.value) == Err(x))
  }

  lemma OffersIff(lib: Library, d: Default, row: Row)
    ensures forall v :: EvalDefault(lib, d, row) == Ok(v) <==> Offers(lib, d, row, v)
  {
  }

  lemma DefaultValueIff(lib: Library, c: Column, row: Row)
    ensures forall v :: DefaultValue(lib, c, row) == Ok(v) <==> Gets(lib, c, row, v)
    ensures forall x :: DefaultValue(lib, c, row) == Err(x) <==> Refuses(lib, c, row, x)
  {
    var offered := EvalDefault(lib, c.default, row);
    OffersIff(lib, c.default, row);
    if offered.Ok? {
      assert Offers(lib, c.default, row, offered.value);
    }
  }

  /** The columns a default reads. */
  function Reads(d: Default): set<Field> {
    if d.Implicit? then {} else Fields(d.expr)
  }

  predicate Scalar(d: Default) {
    d.Default? ==> !ContainsAgg(d.expr)
  }

  lemma DefaultReadsFields(lib: Library, c: Column, row: Row, row': Row)
    requires Scalar(c.default) && SameAt(Reads(c.default), row, row')
    ensures EvalDefault(lib, c.default, row) == EvalDefault(lib, c.default, row')
    ensures DefaultValue(lib, c, row) == DefaultValue(lib, c, row')
  {
    if c.default.Default? {
      EvalReadsFields(lib, c.default.expr, row, row');
    }
  }

  // ---------------------------------------------------------------- completing a row

  datatype Outcome =
    | Done(row: Row)
    | WrongLength
    | OutOfBounds(col: int, columns: nat)
    | EvalFailed(error: Error)
    | Panics

  predicate InBounds(schema: seq<Column>, cols: seq<int>) {
    forall i :: 0 <= i < |cols| ==> 0 <= cols[i] < |schema|
  }

  /** Assigns the defaults of the columns, one after the other. */
  function Assign(lib: Library, schema: seq<Column>, order: seq<int>, row: Row): (r: Outcome)
    requires InBounds(schema, order) && |schema| == |row|
    ensures r.Done? || r.EvalFailed?
    decreases |order|
  {
    if order == [] then Done(row)
    else
      match DefaultValue(lib, schema[order[0]], row)
      case Err(x) => EvalFailed(x)
      case Ok(v) => Assign(lib, schema, order[1..], row[order[0] := v])
  }

  /** The columns among these whose default is a literal, or is not, in order. */
  function Part(schema: seq<Column>, cols: seq<int>, literal: bool): (r: seq<int>)
    ensures InBounds(schema, r)
    ensures forall c :: c in r <==> c in cols && 0 <= c < |schema| && IsLiteral(schema[c].default) == literal
  {
    if cols == [] then []
    else
      var rest := Part(schema, cols[1..], literal);
      if 0 <= cols[0] < |schema| && IsLiteral(schema[cols[0]].default) == literal then [cols[0]] + rest else rest
  }

  function InPart(schema: seq<Column>, literal: bool): int -> bool {
    c => 0 <= c < |schema| && IsLiteral(schema[c].default) == literal
  }

  lemma {:induction false} PartMore(schema: seq<Column>, cols: seq<int>, c: int, literal: bool)
    ensures Part(schema, cols + [c], literal) == Part(schema, cols, literal) + if InPart(schema, literal)(c) then [c] else []
  {
    var last := if InPart(schema, literal)(c) then [c] else [];
    PartFirst(schema, cols + [c], literal);
    if cols == [] {
      assert (cols + [c])[1..] == [];
    } else {
      PartMore(schema, cols[1..], c, literal);
      PartFirst(schema, cols, literal);
      assert (cols + [c])[1..] == cols[1..] + [c] && (cols + [c])[0] == cols[0];
      var first, rest := if InPart(schema, literal)(cols[0]) then [cols[0]] else [], Part(schema, cols[1..], literal);
      assert first + (rest + last) == first + rest + last;
    }
  }

  lemma PartFirst(schema: seq<Column>, cols: seq<int>, literal: bool)
    requires cols != []
    ensures Part(schema, cols, literal) == (if InPart(schema, literal)(cols[0]) then [cols[0]] else []) + Part(schema, cols[1..], literal)
  {
  }

  /** The part is picked out of the columns: in their order, and as often as they stand there. */
  lemma {:induction false} PartPicks(schema: seq<Column>, cols: seq<int>, literal: bool)
    ensures Picked(cols, InPart(schema, literal), Part(schema, cols, literal))
    decreases |cols|
  {
    if cols == [] {
      PicksNone(InPart(schema, literal));
    } else {
      var front, c := cols[..|cols| - 1], cols[|cols| - 1];
      assert cols == front + [c];
      PartPicks(schema, front, literal);
      PartMore(schema, front, c, literal);
      PicksMore(front, InPart(schema, literal), Part(schema, front, literal), c);
      assert Part(schema, front, literal) + [] == Part(schema, front, literal);
    }
  }

  /** The first pass: literal defaults up to the first column that is out of bounds. */
  function FirstPass(lib: Library, schema: seq<Column>, cols: seq<int>, row: Row): (r: Outcome)
    requires |schema| == |row|
    ensures r.Done? ==> InBounds(schema, cols) && |r.row| == |schema|
    decreases |cols|
  {
    if cols == [] then Done(row)
    else if cols[0] < 0 || cols[0] > |schema| then OutOfBounds(cols[0], |schema|)
    else if cols[0] == |schema| then Panics
    else if !IsLiteral(schema[cols[0]].default) then FirstPass(lib, schema, cols[1..], row)
    else
      match DefaultValue(lib, schema[cols[0]], row)
      case Err(x) => EvalFailed(x)
      case Ok(v) => FirstPass(lib, schema, cols[1..], row[cols[0] := v])
  }

  /** What ApplyDefaults answers. A column index equal to the number of columns is let through and panics. */
  function Completed(lib: Library, schema: seq<Column>, cols: seq<int>, row: Row): Outcome {
    if cols == [] then Done(row)
    else if |schema| != |row| then WrongLength
    else
      var first := FirstPass(lib, schema, cols, row);
      if first.Done? then Assign(lib, schema, Part(schema, cols, false), first.row) else first
  }

  method ApplyDefaults(lib: Library, schema: seq<Column>, cols: seq<int>, row: Row) returns (r: Outcome)
    ensures r == Completed(lib, schema, cols, row)
  {
    if cols == [] {
      return Done(row);
    }
    var newRow := row;
    if |schema| != |row| {
      return WrongLength;
    }
    var secondPass := [];
    var i := 0;
    while i < |cols|
      invariant i <= |cols| && |newRow| == |row|
      invariant FirstPass(lib, schema, cols, row) == FirstPass(lib, schema, cols[i..], newRow)
      invariant InBounds(schema, secondPass)
      invariant secondPass + Part(schema, cols[i..], false) == Part(schema, cols, false)
    {
      var col := cols[i];
      assert cols[i..][0] == col && cols[i..][1..] == cols[i + 1..];
      if col < 0 || col > |schema| {
        return OutOfBounds(col, |schema|);
      }
      if col == |schema| {
        return Panics;
      }
      ghost var later := Part(schema, cols[i + 1..], false);
      if !IsLiteral(schema[col].default) {
        assert secondPass + ([col] + later) == (secondPass + [col]) + later;
        secondPass := secondPass + [col];
      } else {
        var val := DefaultValue(lib, schema[col], newRow);
        if val.Err? {
          return EvalFailed(val.error);
        }
        newRow := newRow[col := val.value];
      }
      i := i + 1;
    }
    assert cols[i..] == [] && secondPass + [] == secondPass;
    r := AssignAll(lib, schema, secondPass, newRow);
  }

  /** The second pass. */
  method AssignAll(lib: Library, schema: seq<Column>, order: seq<int>, row: Row) returns (r: Outcome)
    requires InBounds(schema, order) && |schema| == |row|
    ensures r == Assign(lib, schema, order, row)
  {
    var newRow := row;
    var i := 0;
    while i < |order|
      invariant i <= |order| && |newRow| == |row|
      invariant Assign(lib, schema, order, row) == Assign(lib, schema, order[i..], newRow)
    {
      var val := DefaultValue(lib, schema[order[i]], newRow);
      if val.Err? {
        return EvalFailed(val.error);
      }
      assert order[i..][1..] == order[i + 1..];
      newRow := newRow[order[i] := val.value];
      i := i + 1;
    }
    r := Done(newRow);
  }

  // ---------------------------------------------------------------- what it answers

  /** The first `k` indexes are in bounds, and there the list ends or an index follows that is not. */
  predicate InBoundsUpTo(schema: seq<Column>, cols: seq<int>, k: nat) {
    k <= |cols| && InBounds(schema, cols[..k]) && (k < |cols| ==> !(0 <= cols[k] < |schema|))
  }

  lemma {:induction false} FirstBad(schema: seq<Column>, cols: seq<int>) returns (k: nat)
    ensures InBoundsUpTo(schema, cols, k)
  {
    k := 0;
    while k < |cols| && 0 <= cols[k] < |schema|
      invariant k <= |cols| && InBounds(schema, cols[..k])
    {
      k := k + 1;
    }
  }

  /** What an index out of bounds leads to: an error, but a panic if it is the number of columns. */
  function BadIndex(schema: seq<Column>, c: int): Outcome {
    if c == |schema| then Panics else OutOfBounds(c, |schema|)
  }

  /** The first pass assigns the literal defaults up to the first index out of bounds, and stops at it. */
  lemma {:induction false} FirstPassIs(lib: Library, schema: seq<Column>, cols: seq<int>, row: Row, k: nat)
    requires |schema| == |row| && InBoundsUpTo(schema, cols, k)
    ensures var literals := Assign(lib, schema, Part(schema, cols[..k], true), row);
            FirstPass(lib, schema, cols, row) == if literals.Done? && k < |cols| then BadIndex(schema, cols[k]) else literals
    decreases k
  {
    if k == 0 {
      assert cols[..k] == [];
    } else {
      var before, rest := cols[..k], cols[1..][..k - 1];
      assert before == [cols[0]] + rest && before[1..] == rest && before[0] == cols[0];
      assert InBoundsUpTo(schema, cols[1..], k - 1);
      if !IsLiteral(schema[cols[0]].default) {
        FirstPassIs(lib, schema, cols[1..], row, k - 1);
      } else {
        var v := DefaultValue(lib, schema[cols[0]], row);
        var literals := Part(schema, rest, true);
        assert ([cols[0]] + literals)[1..] == literals;
        if v.Ok? {
          FirstPassIs(lib, schema, cols[1..], row[cols[0] := v.value], k - 1);
        }
      }
    }
  }

  /** The rows an assignment of defaults goes through: each column gets its value from the row before. */
  ghost predicate Fills(lib: Library, schema: seq<Column>, order: seq<int>, rows: seq<Row>)
    requires InBounds(schema, order)
  {
    && |rows| == |order| + 1
    && (forall i :: 0 <= i < |rows| ==> |rows[i]| == |schema|)
    && forall i :: 0 <= i < |order| ==> FillsOne(lib, schema, order[i], rows[i], rows[i + 1])
  }

  ghost predicate FillsOne(lib: Library, schema: seq<Column>, c: int, row: Row, row': Row)
    requires 0 <= c < |schema| && |row| == |row'| == |schema|
  {
    row' == row[c := row'[c]] && Gets(lib, schema[c], row, row'[c])
  }

  /** The defaults before number `i` are assigned, and that one refuses. */
  ghost predicate RefusesAt(lib: Library, schema: seq<Column>, order: seq<int>, rows: seq<Row>, i: nat, x: Error)
    requires InBounds(schema, order)
  {
    i < |order| && Fills(lib, schema, order[..i], rows) && Refuses(lib, schema[order[i]], rows[i], x)
  }

  /** Assigning goes column by column, each default evaluated on the row so far, up to the first that refuses. */
  lemma {:induction false} AssignIs(lib: Library, schema: seq<Column>, order: seq<int>, row: Row)
    requires InBounds(schema, order) && |schema| == |row|
    ensures var r := Assign(lib, schema, order, row);
            && (r.Done? ==> exists rows :: Fills(lib, schema, order, rows) && rows[0] == row && rows[|order|] == r.row)
            && (r.EvalFailed? ==> exists rows, i :: 0 <= i < |order| && RefusesAt(lib, schema, order, rows, i, r.error) && rows[0] == row)
    decreases |order|
  {
    if order == [] {
      assert Fills(lib, schema, order, [row]);
    } else {
      DefaultValueIff(lib, schema[order[0]], row);
      var r := Assign(lib, schema, order, row);
      match DefaultValue(lib, schema[order[0]], row)
      case Err(x) =>
        assert order[..0] == [];
        assert RefusesAt(lib, schema, order, [row], 0, x);
      case Ok(v) =>
        AssignIs(lib, schema, order[1..], row[order[0] := v]);
        if r.Done? {
          var rest :| Fills(lib, schema, order[1..], rest) && rest[0] == row[order[0] := v] && rest[|order| - 1] == r.row;
          FillsFirst(lib, schema, order, row, rest);
        } else {
          var rest, i :| 0 <= i < |order[1..]| && RefusesAt(lib, schema, order[1..], rest, i, r.error) && rest[0] == row[order[0] := v];
          assert order[..i + 1][1..] == order[1..][..i] && order[..i + 1][0] == order[0];
          FillsFirst(lib, schema, order[..i + 1], row, rest);
          assert RefusesAt(lib, schema, order, [row] + rest, i + 1, r.error);
        }
    }
  }

  lemma FillsFirst(lib: Library, schema: seq<Column>, order: seq<int>, row: Row, rest: seq<Row>)
    requires InBounds(schema, order) && order != [] && |row| == |schema|
    requires Fills(lib, schema, order[1..], rest) && FillsOne(lib, schema, order[0], row, rest[0])
    ensures Fills(lib, schema, order, [row] + rest)
  {
    var rows := [row] + rest;
    forall i | 0 <= i < |order|
      ensures FillsOne(lib, schema, order[i], rows[i], rows[i + 1])
    {
      if i > 0 {
        assert order[i] == order[1..][i - 1] && rows[i] == rest[i - 1] && rows[i + 1] == rest[i];
      }
    }
  }

  /**
   What ApplyDefaults answers, in full. Nothing changes without columns, and a row of the wrong length
   is refused. Otherwise the literal defaults before the first index out of bounds are assigned; if they
   all evaluate, such an index is an error, or a panic if it is the number of columns; and if there is
   none, the other defaults are assigned next.
   */
  lemma CompletedIs(lib: Library, schema: seq<Column>, cols: seq<int>, row: Row, k: nat)
    requires InBoundsUpTo(schema, cols, k)
    ensures cols == [] ==> Completed(lib, schema, cols, row) == Done(row)
    ensures cols != [] && |schema| != |row| ==> Completed(lib, schema, cols, row) == WrongLength
    ensures cols != [] && |schema| == |row| ==>
              var literals, others := Part(schema, cols[..k], true), Part(schema, cols[..k], false);
              Completed(lib, schema, cols, row) ==
              if k == |cols| then Assign(lib, schema, literals + others, row)
              else if Assign(lib, schema, literals, row).Done? then BadIndex(schema, cols[k])
              else Assign(lib, schema, literals, row)
  {
    if cols != [] && |schema| == |row| {
      FirstPassIs(lib, schema, cols, row, k);
      if k == |cols| {
        assert cols[..k] == cols;
        AssignConcat(lib, schema, Part(schema, cols, true), Part(schema, cols, false), row);
      }
    }
  }

  /** The i-th index is the number of columns, those before it are in bounds, and their literal defaults evaluate. */
  ghost predicate PanicsAt(lib: Library, schema: seq<Column>, cols: seq<int>, row: Row, i: int)
    requires |schema| == |row|
  {
    && 0 <= i < |cols| && cols[i] == |schema| && InBounds(schema, cols[..i])
    && Assign(lib, schema, Part(schema, cols[..i], true), row).Done?
  }

  /** An index equal to the number of columns passes the check of the bounds, and panics unless an error comes first. */
  lemma ApplyDefaultsPanicsIff(lib: Library, schema: seq<Column>, cols: seq<int>, row: Row)
    ensures Completed(lib, schema, cols, row) == Panics <==>
            |schema| == |row| && exists i :: PanicsAt(lib, schema, cols, row, i)
  {
    var k := FirstBad(schema, cols);
    CompletedIs(lib, schema, cols, row, k);
    if |schema| == |row| {
      if i :| PanicsAt(lib, schema, cols, row, i) {
        SameBad(schema, cols, i, k);
      }
      if Completed(lib, schema, cols, row) == Panics {
        assert PanicsAt(lib, schema, cols, row, k);
      }
    }
  }

  lemma SameBad(schema: seq<Column>, cols: seq<int>, i: nat, k: nat)
    requires InBoundsUpTo(schema, cols, i) && InBoundsUpTo(schema, cols, k) && i < |cols|
    ensures i == k
  {
  }

  // ---------------------------------------------------------------- the equations it solves

  predicate Distinct(cols: seq<int>) {
    forall i, j :: 0 <= i < j < |cols| ==> cols[i] != cols[j]
  }

  /** The row agrees with the given one elsewhere, and each of the columns holds its default, evaluated on this same row. */
  ghost predicate Solves(lib: Library, schema: seq<Column>, cols: seq<int>, row: Row, r: Row)
    requires InBounds(schema, cols) && |row| == |schema|
  {
    && |r| == |row|
    && (forall i :: 0 <= i < |row| && i !in cols ==> r[i] == row[i])
    && (forall c :: c in cols ==> DefaultValue(lib, schema[c], r) == Ok(r[c]))
  }

  /** The same without naming how a default is evaluated: each of the columns gets from its default the value it holds. */
  ghost predicate Solution(lib: Library, schema: seq<Column>, cols: seq<int>, row: Row, r: Row)
    requires InBounds(schema, cols) && |row| == |schema|
  {
    && |r| == |row|
    && (forall i :: 0 <= i < |row| && i !in cols ==> r[i] == row[i])
    && (forall c :: c in cols ==> Gets(lib, schema[c], r, r[c]))
  }

  lemma SolvesIff(lib: Library, schema: seq<Column>, cols: seq<int>, row: Row, r: Row)
    requires InBounds(schema, cols) && |row| == |schema|
    ensures Solves(lib, schema, cols, row, r) <==> Solution(lib, schema, cols, row, r)
  {
    if |r| == |row| {
      forall c | c in cols
        ensures DefaultValue(lib, schema[c], r) == Ok(r[c]) <==> Gets(lib, schema[c], r, r[c])
      {
        DefaultValueIff(lib, schema[c], r);
      }
    }
  }

  /** Each default reads none of the columns that are assigned with it or after it. */
  predicate Settled(schema: seq<Column>, order: seq<int>)
    requires InBounds(schema, order)
  {
    forall i, f :: 0 <= i < |order| && f in Reads(schema[order[i]].default) ==> f.index !in order[i..]
  }

  predicate AllScalar(schema: seq<Column>) {
    forall i :: 0 <= i < |schema| ==> Scalar(schema[i].default)
  }

  lemma {:induction false} AssignSolves(lib: Library, schema: seq<Column>, order: seq<int>, row: Row, r: Row)
    requires InBounds(schema, order) && |row| == |schema| && Distinct(order)
    requires AllScalar(schema) && Settled(schema, order)
    ensures Assign(lib, schema, order, row) == Done(r) <==> Solves(lib, schema, order, row, r)
    decreases |order|
  {
    if order == [] {
      assert Solves(lib, schema, order, row, r) ==> r == row;
    } else {
      var c, rest := order[0], order[1..];
      assert order == [c] + rest;
      assert Settled(schema, rest) by {
        assert forall i :: 0 <= i < |rest| ==> rest[i] == order[i + 1] && rest[i..] == order[i + 1..];
      }
      if Solves(lib, schema, order, row, r) {
        FirstOfOrder(lib, schema, order, row, r);
      }
      var v := DefaultValue(lib, schema[c], row);
      if v.Ok? {
        AssignSolves(lib, schema, rest, row[c := v.value], r);
        if Solves(lib, schema, rest, row[c := v.value], r) {
          RestOfOrder(lib, schema, order, row, v.value, r);
        }
      }
    }
  }

  lemma SameOutside(schema: seq<Column>, order: seq<int>, row: Row, r: Row)
    requires InBounds(schema, order) && order != [] && |row| == |r| && Settled(schema, order)
    requires forall i :: 0 <= i < |row| && i !in order ==> r[i] == row[i]
    ensures SameAt(Reads(schema[order[0]].default), row, r)
  {
    assert order[0..] == order;
  }

  lemma FirstOfOrder(lib: Library, schema: seq<Column>, order: seq<int>, row: Row, r: Row)
    requires InBounds(schema, order) && |row| == |schema| && Distinct(order) && order != []
    requires AllScalar(schema) && Settled(schema, order) && Solves(lib, schema, order, row, r)
    ensures DefaultValue(lib, schema[order[0]], row) == Ok(r[order[0]])
    ensures InBounds(schema, order[1..]) && Solves(lib, schema, order[1..], row[order[0] := r[order[0]]], r)
  {
    SameOutside(schema, order, row, r);
    DefaultReadsFields(lib, schema[order[0]], row, r);
    assert order == [order[0]] + order[1..];
  }

  lemma RestOfOrder(lib: Library, schema: seq<Column>, order: seq<int>, row: Row, v: Value, r: Row)
    requires InBounds(schema, order) && |row| == |schema| && Distinct(order) && order != []
    requires AllScalar(schema) && Settled(schema, order) && DefaultValue(lib, schema[order[0]], row) == Ok(v)
    requires InBounds(schema, order[1..]) && Solves(lib, schema, order[1..], row[order[0] := v], r)
    ensures Solves(lib, schema, order, row, r)
  {
    assert order == [order[0]] + order[1..];
    assert order[0] !in order[1..];
    SameOutside(schema, order, row, r);
    DefaultReadsFields(lib, schema[order[0]], row, r);
  }

  /**
   Literal defaults read nothing. An expression default reads no column that is completed with it
   or after it, unless that column's default is a literal. For ascending columns this is the rule
   that a default may not refer to a column defined after it that has an expression default.
   */
  predicate Ordered(schema: seq<Column>, cols: seq<int>)
    requires InBounds(schema, cols)
  {
    && (forall i :: 0 <= i < |cols| && IsLiteral(schema[cols[i]].default) ==> Reads(schema[cols[i]].default) == {})
    && (forall i, j, f :: 0 <= i <= j < |cols| && f in Reads(schema[cols[i]].default) && f.index == cols[j] ==>
                            IsLiteral(schema[cols[j]].default))
  }

  lemma {:induction false} PartDistinct(schema: seq<Column>, cols: seq<int>, literal: bool)
    requires Distinct(cols)
    ensures Distinct(Part(schema, cols, literal))
  {
    if cols != [] {
      PartDistinct(schema, cols[1..], literal);
      assert cols[0] !in cols[1..];
    }
  }

  lemma {:induction false} FirstPassAssigns(lib: Library, schema: seq<Column>, cols: seq<int>, row: Row)
    requires InBounds(schema, cols) && |schema| == |row|
    ensures FirstPass(lib, schema, cols, row) == Assign(lib, schema, Part(schema, cols, true), row)
    decreases |cols|
  {
    if cols != [] {
      var v := DefaultValue(lib, schema[cols[0]], row);
      if !IsLiteral(schema[cols[0]].default) {
        FirstPassAssigns(lib, schema, cols[1..], row);
      } else if v.Ok? {
        FirstPassAssigns(lib, schema, cols[1..], row[cols[0] := v.value]);
      }
    }
  }

  lemma {:induction false} AssignConcat(lib: Library, schema: seq<Column>, a: seq<int>, b: seq<int>, row: Row)
    requires InBounds(schema, a) && InBounds(schema, b) && |schema| == |row|
    ensures var first := Assign(lib, schema, a, row);
            && (first.Done? ==> |first.row| == |row|)
            && Assign(lib, schema, a + b, row) == if first.Done? then Assign(lib, schema, b, first.row) else first
    decreases |a|
  {
    if a == [] {
      assert a + b == b;
    } else {
      assert (a + b)[1..] == a[1..] + b;
      var v := DefaultValue(lib, schema[a[0]], row);
      if v.Ok? {
        AssignConcat(lib, schema, a[1..], b, row[a[0] := v.value]);
      }
    }
  }

  lemma {:induction false} ExpressionsSettled(schema: seq<Column>, cols: seq<int>)
    requires InBounds(schema, cols) && Ordered(schema, cols)
    ensures Settled(schema, Part(schema, cols, false))
  {
    if cols != [] {
      var part, rest := Part(schema, cols, false), Part(schema, cols[1..], false);
      assert Ordered(schema, cols[1..]);
      ExpressionsSettled(schema, cols[1..]);
      if !IsLiteral(schema[cols[0]].default) {
        assert part[0..] == part;
        assert forall i :: 1 <= i < |part| ==> part[i] == rest[i - 1] && part[i..] == rest[i - 1..];
      }
    }
  }

  lemma DistinctConcat(a: seq<int>, b: seq<int>)
    requires Distinct(a) && Distinct(b) && forall c :: c in a ==> c !in b
    ensures Distinct(a + b)
  {
    forall i, j | 0 <= i < j < |a + b| ensures (a + b)[i] != (a + b)[j] {
      if i < |a| <= j {
        assert a[i] in a && b[j - |a|] in b;
      }
    }
  }

  lemma PassesSettled(schema: seq<Column>, cols: seq<int>)
    requires InBounds(schema, cols) && Distinct(cols) && Ordered(schema, cols)
    ensures var order := Part(schema, cols, true) + Part(schema, cols, false);
            Distinct(order) && InBounds(schema, order) && Settled(schema, order)
  {
    var a, b := Part(schema, cols, true), Part(schema, cols, false);
    PartDistinct(schema, cols, true);
    PartDistinct(schema, cols, false);
    DistinctConcat(a, b);
    ExpressionsSettled(schema, cols);
    assert forall i :: 0 <= i < |a| ==> a[i] in cols && Reads(schema[a[i]].default) == {};
    forall i, f | 0 <= i < |a + b| && f in Reads(schema[(a + b)[i]].default) ensures f.index !in (a + b)[i..] {
      if i >= |a| {
        assert (a + b)[i..] == b[i - |a|..];
      }
    }
  }

  /**
   Under the rule above, the two passes find the one row that agrees with the given row outside the
   columns and in which every one of them holds its converted default evaluated on that row; and
   they fail, or panic, exactly when there is no such row.
   */
  lemma ApplyDefaultsSolves(lib: Library, schema: seq<Column>, cols: seq<int>, row: Row, r: Row)
    requires |row| == |schema| && InBounds(schema, cols) && Distinct(cols)
    requires AllScalar(schema) && Ordered(schema, cols)
    ensures Completed(lib, schema, cols, row) == Done(r) <==> Solution(lib, schema, cols, row, r)
  {
    SolvesIff(lib, schema, cols, row, r);
    var a, b := Part(schema, cols, true), Part(schema, cols, false);
    PassesSettled(schema, cols);
    FirstPassAssigns(lib, schema, cols, row);
    AssignConcat(lib, schema, a, b, row);
    AssignSolves(lib, schema, a + b, row, r);
    assert forall c :: c in cols <==> c in a + b;
  }

  /**
   The rule is needed: where the expression default of a column refers to a later column that has an
   expression default too, it reads the placeholder of that column. The equations have a solution,
   but the two passes return another row.
   */
  lemma LaterExpressionIsNotSeen(lib: Library, schema: seq<Column>, row: Row, later: Value)
    requires |row| == |schema| == 2 && later != Null && row[1] == Null
    requires forall i, v :: 0 <= i < 2 ==> schema[i].convert(v) == Ok(v)
    requires schema[0].default == Default(GetField(1, "t", "b"), None, false, true)
    requires schema[1].default == Default(Literal(later), None, false, true)
    ensures Completed(lib, schema, [0, 1], row) == Done([Null, later])
    ensures Solves(lib, schema, [0, 1], row, [later, later])
    ensures !Solves(lib, schema, [0, 1], row, [Null, later])
  {
    assert Part(schema, [1], false) == [1];
    assert ([0, 1])[1..] == [1];
    assert Part(schema, [0, 1], false) == [0, 1];
    assert FirstPass(lib, schema, [1], row) == Done(row);
    assert DefaultValue(lib, schema[0], row) == Ok(Null);
    var row1 := row[0 := Null];
    assert DefaultValue(lib, schema[1], row1) == Ok(later);
    assert Assign(lib, schema, [1], row1) == Done(row1[1 := later]);
    assert row1[1 := later] == [Null, later];
    assert 0 in [0, 1];
  }
}
