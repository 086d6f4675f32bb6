/**
 Expression trees and their evaluation on a row, as sql/expression defines them: column
 references, literals, the logical operators with SQL's NULL, comparisons, function calls,
 aliases and aggregations.
 */
module Expressions {
  import opened Wrappers

  datatype Value = Null | Bool(b: bool) | Int(n: int) | Float(r: real) | Text(s: string)

  type Row = seq<Value>

  datatype Error = IndexOutOfBounds | FieldMissing(name: string) | Failed(what: string)

  type EvalResult = Result<Value, Error>

  datatype Comparison = Equals | LessThan | LessThanOrEqual | GreaterThan | GreaterThanOrEqual

  datatype Expr =
    | GetField(index: int, table: string, name: string)
    | Literal(value: Value)
    | And(left: Expr, right: Expr)
    | Or(left: Expr, right: Expr)
    | Not(child: Expr)
    | Compare(op: Comparison, left: Expr, right: Expr)
    | Alias(alias: string, child: Expr)
    | Call(fn: string, args: seq<Expr>)
    | Agg(fn: string, child: Expr)

  /**
   What the engine's types and functions compute. Every result below holds for every library:
   function calls, the order of two non-NULL values (negative, zero or positive as -1, 0, 1), the
   number a text stands for, and what an aggregation does with its buffer.
   */
  datatype Library = Library(
    call: (string, seq<Value>) -> EvalResult,
    compare: (Value, Value) -> Result<int, Error>,
    number: string -> Option<real>,
    newBuffer: string -> Row,
    update: (string, Row, Value) -> Result<Row, Error>,
    evalBuffer: (string, Row) -> EvalResult)

  // ---------------------------------------------------------------- truth

  /** sql.ConvertToBool; NULL has no boolean. */
  function ConvertToBool(lib: Library, v: Value): Option<bool> {
    match v
    case Null => None
    case Bool(b) => Some(b)
    case Int(n) => Some(n != 0)
    case Float(r) => Some(r != 0.0)
    case Text(s) =>
      match lib.number(s)
      case None => Some(false)
      case Some(x) => Some(x != 0.0)
  }

  /** SQL's three truth values, as AND and OR see a value. */
  datatype Truth = True | False | Unknown

  function TruthOf(lib: Library, v: Value): Truth {
    match ConvertToBool(lib, v)
    case None => Unknown
    case Some(b) => if b then True else False
  }

  function ValueOf(t: Truth): Value {
    match t
    case True => Bool(true)
    case False => Bool(false)
    case Unknown => Null
  }

  function AndTruth(a: Truth, b: Truth): Truth {
    if a == False || b == False then False else if a == Unknown || b == Unknown then Unknown else True
  }

  /** The OR that Or.Eval computes: unknown only when both sides are. */
  function OrTruth(a: Truth, b: Truth): Truth {
    if a == True || b == True then True else if a == Unknown && b == Unknown then Unknown else False
  }

  /** The OR of SQL's three-valued logic. */
  function KleeneOr(a: Truth, b: Truth): Truth {
    if a == True || b == True then True else if a == Unknown || b == Unknown then Unknown else False
  }

  /**
   Or.Eval answers FALSE where three-valued logic says UNKNOWN, exactly when one side is NULL and
   the other false. The truth of an OR is the same, but NOT of such an OR becomes TRUE.
   */
  lemma OrDiffersFromKleene(a: Truth, b: Truth)
    ensures OrTruth(a, b) != KleeneOr(a, b) <==> {a, b} == {Unknown, False}
    ensures OrTruth(a, b) == True <==> KleeneOr(a, b) == True
  {
    assert Unknown in {a, b} <==> a == Unknown || b == Unknown;
    assert False in {a, b} <==> a == False || b == False;
    assert True in {a, b} <==> a == True || b == True;
    if a in {Unknown, False} && b in {Unknown, False} && a != b {
      assert {a, b} == {Unknown, False};
    }
  }

  // ---------------------------------------------------------------- evaluation

  /** Two results in order: the first error wins. */
  function Both<T, U>(l: Result<T, Error>, r: Result<U, Error>): Result<(T, U), Error> {
    match l
    case Err(x) => Err(x)
    case Ok(a) => match r case Err(x) => Err(x) case Ok(b) => Ok((a, b))
  }

  function EvalCompare(lib: Library, op: Comparison, l: Value, r: Value): EvalResult {
    if l == Null || r == Null then Ok(Null)
    else
      match lib.compare(l, r)
      case Err(e) => Err(e)
      case Ok(c) =>
        match op
        case Equals => Ok(Bool(c == 0))
        case LessThan => Ok(Bool(c == -1))
        case LessThanOrEqual => Ok(Bool(c < 1))
        case GreaterThan => Ok(Bool(c == 1))
        case GreaterThanOrEqual => Ok(Bool(c > -1))
  }

  /** Eval of an expression on a row. AND and OR stop at a left side that decides. */
  function Eval(lib: Library, e: Expr, row: Row): EvalResult
    decreases e, 1
  {
    match e
    case GetField(i, _, _) => if 0 <= i < |row| then Ok(row[i]) else Err(IndexOutOfBounds)
    case Literal(v) => Ok(v)
    case And(l, r) =>
      (match Eval(lib, l, row)
       case Err(x) => Err(x)
       case Ok(lv) =>
         if TruthOf(lib, lv) == False then Ok(Bool(false))
         else
           match Eval(lib, r, row)
           case Err(x) => Err(x)
           case Ok(rv) =>
             if TruthOf(lib, rv) == False then Ok(Bool(false))
             else if lv == Null || rv == Null then Ok(Null)
             else Ok(Bool(true)))
    case Or(l, r) =>
      (match Eval(lib, l, row)
       case Err(x) => Err(x)
       case Ok(lv) =>
         if TruthOf(lib, lv) == True then Ok(Bool(true))
         else
           match Eval(lib, r, row)
           case Err(x) => Err(x)
           case Ok(rv) =>
             if TruthOf(lib, rv) == True then Ok(Bool(true))
             else if lv == Null && rv == Null then Ok(Null)
             else Ok(Bool(rv == Bool(true))))
    case Not(c) =>
      (match Eval(lib, c, row)
       case Err(x) => Err(x)
       case Ok(v) =>
         match ConvertToBool(lib, v)
         case None => Ok(Null)
         case Some(b) => Ok(Bool(!b)))
    case Compare(op, l, r) =>
      (match Both(Eval(lib, l, row), Eval(lib, r, row))
       case Err(x) => Err(x)
       case Ok((lv, rv)) => EvalCompare(lib, op, lv, rv))
    case Alias(_, c) => Eval(lib, c, row)
    case Call(fn, args) =>
      (match EvalAll(lib, args, row)
       case Err(x) => Err(x)
       case Ok(vs) => lib.call(fn, vs))
    case Agg(fn, _) => lib.evalBuffer(fn, row)
  }

  function EvalAll(lib: Library, es: seq<Expr>, row: Row): Result<seq<Value>, Error>
    decreases es, 0
  {
    if es == [] then Ok([])
    else
      match Both(Eval(lib, es[0], row), EvalAll(lib, es[1..], row))
      case Err(x) => Err(x)
      case Ok((v, vs)) => Ok([v] + vs)
  }

  /** Sides that evaluate give AND and OR the value of their truths, whichever side comes first. */
  lemma AndOrValues(lib: Library, l: Expr, r: Expr, row: Row)
    requires Eval(lib, l, row).Ok? && Eval(lib, r, row).Ok?
    ensures var a, b := TruthOf(lib, Eval(lib, l, row).value), TruthOf(lib, Eval(lib, r, row).value);
            && Eval(lib, And(l, r), row) == Ok(ValueOf(AndTruth(a, b)))
            && Eval(lib, Or(l, r), row) == Ok(ValueOf(OrTruth(a, b)))
  {
  }

  /** A value is true unless it is NULL, false, the number zero, or a text that stands for no other number. */
  predicate IsTrue(lib: Library, v: Value) {
    v != Null && v != Bool(false) && v != Int(0) && v != Float(0.0) &&
    (v.Text? ==> lib.number(v.s).Some? && lib.number(v.s).value != 0.0)
  }

  /** NULL is unknown, and of the other values exactly the true ones are true. */
  lemma TruthIff(lib: Library, v: Value)
    ensures TruthOf(lib, v) == Unknown <==> v == Null
    ensures TruthOf(lib, v) == True <==> IsTrue(lib, v)
  {
  }

  /** NOT exchanges true and false and keeps NULL, and twice NOT is the truth of the value. */
  lemma NotValues(lib: Library, e: Expr, row: Row)
    ensures Eval(lib, e, row).Err? ==> Eval(lib, Not(e), row) == Eval(lib, e, row)
    ensures Eval(lib, e, row).Ok? ==>
              var v := Eval(lib, e, row).value;
              && (Eval(lib, Not(e), row) == Ok(Bool(false)) <==> IsTrue(lib, v))
              && (Eval(lib, Not(e), row) == Ok(Null) <==> v == Null)
              && Eval(lib, Not(Not(e)), row) == Ok(ValueOf(TruthOf(lib, v)))
  {
    if Eval(lib, e, row).Ok? {
      TruthIff(lib, Eval(lib, e, row).value);
    }
  }

  /** The orders of two values that a comparison accepts: -1, 0 and 1 stand for below, equal and above. */
  predicate Accepts(op: Comparison, order: int) {
    match op
    case Equals => order == 0
    case LessThan => order == -1
    case LessThanOrEqual => order <= 0
    case GreaterThan => order == 1
    case GreaterThanOrEqual => order >= 0
  }

  /** The order of two values, neither of them NULL, is one that the comparison accepts. */
  predicate Stands(lib: Library, op: Comparison, a: Value, b: Value) {
    a != Null && b != Null && lib.compare(a, b).Ok? && Accepts(op, lib.compare(a, b).value)
  }

  /**
   A comparison is true exactly when both sides evaluate to values other than NULL whose order it
   accepts, NULL exactly when both sides evaluate and one is NULL, an error exactly when a side or the
   comparison of the values is one, and otherwise false.
   */
  lemma CompareIff(lib: Library, op: Comparison, l: Expr, r: Expr, row: Row)
    ensures var a, b, c := Eval(lib, l, row), Eval(lib, r, row), Eval(lib, Compare(op, l, r), row);
            && (c == Ok(Bool(true)) <==> a.Ok? && b.Ok? && Stands(lib, op, a.value, b.value))
            && (c == Ok(Null) <==> a.Ok? && b.Ok? && (a.value == Null || b.value == Null))
            && (c.Err? <==> a.Err? || b.Err? || (a.value != Null && b.value != Null && lib.compare(a.value, b.value).Err?))
            && (c.Ok? ==> c.value in {Null, Bool(true), Bool(false)})
  {
  }

  /** A list evaluates to the value of each of its expressions, or to the first error. */
  lemma {:induction false} EvalAllIff(lib: Library, es: seq<Expr>, row: Row)
    ensures EvalAll(lib, es, row).Ok? <==> forall i :: 0 <= i < |es| ==> Eval(lib, es[i], row).Ok?
    ensures EvalAll(lib, es, row).Ok? ==>
              && |EvalAll(lib, es, row).value| == |es|
              && forall i :: 0 <= i < |es| ==> Eval(lib, es[i], row) == Ok(EvalAll(lib, es, row).value[i])
    ensures EvalAll(lib, es, row).Err? ==> exists i :: FirstError(lib, es, row, i, EvalAll(lib, es, row).error)
  {
    if es != [] {
      var rest := es[1..];
      EvalAllIff(lib, rest, row);
      assert es == [es[0]] + rest;
      if Eval(lib, es[0], row).Err? {
        assert FirstError(lib, es, row, 0, Eval(lib, es[0], row).error);
      } else if EvalAll(lib, rest, row).Err? {
        var x := EvalAll(lib, rest, row).error;
        var i: nat :| FirstError(lib, rest, row, i, x);
        assert FirstError(lib, es, row, i + 1, x);
      }
    }
  }

  predicate FirstError(lib: Library, es: seq<Expr>, row: Row, i: nat, x: Error) {
    && i < |es| && Eval(lib, es[i], row) == Err(x)
    && forall k :: 0 <= k < i ==> Eval(lib, es[k], row).Ok?
  }

  /** The expression with each column reference replaced by the row's value, if the row has it. */
  function Substituted(e: Expr, row: Row): Expr
    decreases e, 1
  {
    match e
    case GetField(i, _, _) => if 0 <= i < |row| then Literal(row[i]) else e
    case Literal(_) => e
    case And(l, r) => And(Substituted(l, row), Substituted(r, row))
    case Or(l, r) => Or(Substituted(l, row), Substituted(r, row))
    case Compare(op, l, r) => Compare(op, Substituted(l, row), Substituted(r, row))
    case Not(c) => Not(Substituted(c, row))
    case Alias(_, c) => Substituted(c, row)
    case Agg(_, _) => e
    case Call(fn, args) => Call(fn, SubstitutedAll(args, row))
  }

  function SubstitutedAll(es: seq<Expr>, row: Row): (r: seq<Expr>)
    ensures |r| == |es|
    decreases es, 0
  {
    if es == [] then [] else [Substituted(es[0], row)] + SubstitutedAll(es[1..], row)
  }

  /** A column reference stands for the row's value at its index: the substituted expression has the same value, without the row. */
  lemma {:induction false} SubstitutionKeepsValue(lib: Library, e: Expr, row: Row)
    requires !ContainsAgg(e)
    ensures Eval(lib, Substituted(e, row), []) == Eval(lib, e, row)
    decreases e, 1
  {
    match e
    case GetField(_, _, _) =>
    case Literal(_) =>
    case And(l, r) => SubstitutionKeepsValue(lib, l, row); SubstitutionKeepsValue(lib, r, row);
    case Or(l, r) => SubstitutionKeepsValue(lib, l, row); SubstitutionKeepsValue(lib, r, row);
    case Compare(_, l, r) => SubstitutionKeepsValue(lib, l, row); SubstitutionKeepsValue(lib, r, row);
    case Not(c) => SubstitutionKeepsValue(lib, c, row);
    case Alias(_, c) => SubstitutionKeepsValue(lib, c, row);
    case Call(_, args) => SubstitutionKeepsValues(lib, args, row);
  }

  lemma {:induction false} SubstitutionKeepsValues(lib: Library, es: seq<Expr>, row: Row)
    requires !AnyContainsAgg(es)
    ensures EvalAll(lib, SubstitutedAll(es, row), []) == EvalAll(lib, es, row)
    decreases es, 0
  {
    if es != [] {
      SubstitutionKeepsValue(lib, es[0], row);
      SubstitutionKeepsValues(lib, es[1..], row);
      assert SubstitutedAll(es, row)[1..] == SubstitutedAll(es[1..], row);
    }
  }

  /** The buffer of an aggregation after it has seen the rows of a group, in order. */
  function Accumulate(lib: Library, fn: string, child: Expr, rows: seq<Row>): Result<Row, Error> {
    if rows == [] then Ok(lib.newBuffer(fn))
    else
      match Both(Accumulate(lib, fn, child, rows[..|rows| - 1]), Eval(lib, child, rows[|rows| - 1]))
      case Err(x) => Err(x)
      case Ok((buffer, v)) => lib.update(fn, buffer, v)
  }

  // ---------------------------------------------------------------- transforming trees

  /** expression.TransformUp: the children first, then the rebuilt node. */
  function TransformUp(e: Expr, f: Expr -> Result<Expr, Error>): Result<Expr, Error>
    decreases e, 1
  {
    match e
    case GetField(_, _, _) => f(e)
    case Literal(_) => f(e)
    case And(l, r) =>
      (match Both(TransformUp(l, f), TransformUp(r, f)) case Err(x) => Err(x) case Ok((a, b)) => f(And(a, b)))
    case Or(l, r) =>
      (match Both(TransformUp(l, f), TransformUp(r, f)) case Err(x) => Err(x) case Ok((a, b)) => f(Or(a, b)))
    case Compare(op, l, r) =>
      (match Both(TransformUp(l, f), TransformUp(r, f)) case Err(x) => Err(x) case Ok((a, b)) => f(Compare(op, a, b)))
    case Not(c) => (match TransformUp(c, f) case Err(x) => Err(x) case Ok(a) => f(Not(a)))
    case Alias(n, c) => (match TransformUp(c, f) case Err(x) => Err(x) case Ok(a) => f(Alias(n, a)))
    case Agg(fn, c) => (match TransformUp(c, f) case Err(x) => Err(x) case Ok(a) => f(Agg(fn, a)))
    case Call(fn, args) => (match TransformAll(args, f) case Err(x) => Err(x) case Ok(as') => f(Call(fn, as')))
  }

  function TransformAll(es: seq<Expr>, f: Expr -> Result<Expr, Error>): Result<seq<Expr>, Error>
    decreases es, 0
  {
    if es == [] then Ok([])
    else
      match Both(TransformUp(es[0], f), TransformAll(es[1..], f))
      case Err(x) => Err(x)
      case Ok((e, rest)) => Ok([e] + rest)
  }

  // ---------------------------------------------------------------- inspecting trees

  datatype Field = Field(index: int, table: string, name: string)

  /** The column references sql.Inspect reaches in a tree. */
  function Fields(e: Expr): set<Field>
    decreases e, 1
  {
    match e
    case GetField(i, t, n) => {Field(i, t, n)}
    case Literal(_) => {}
    case And(l, r) => Fields(l) + Fields(r)
    case Or(l, r) => Fields(l) + Fields(r)
    case Compare(_, l, r) => Fields(l) + Fields(r)
    case Not(c) => Fields(c)
    case Alias(_, c) => Fields(c)
    case Agg(_, c) => Fields(c)
    case Call(_, args) => FieldsOfAll(args)
  }

  function FieldsOfAll(es: seq<Expr>): set<Field>
    decreases es, 0
  {
    if es == [] then {} else Fields(es[0]) + FieldsOfAll(es[1..])
  }

  /** containsAggregation. */
  predicate ContainsAgg(e: Expr)
    decreases e, 1
  {
    match e
    case GetField(_, _, _) => false
    case Literal(_) => false
    case And(l, r) => ContainsAgg(l) || ContainsAgg(r)
    case Or(l, r) => ContainsAgg(l) || ContainsAgg(r)
    case Compare(_, l, r) => ContainsAgg(l) || ContainsAgg(r)
    case Not(c) => ContainsAgg(c)
    case Alias(_, c) => ContainsAgg(c)
    case Agg(_, _) => true
    case Call(_, args) => AnyContainsAgg(args)
  }

  predicate AnyContainsAgg(es: seq<Expr>)
    decreases es, 0
  {
    es != [] && (ContainsAgg(es[0]) || AnyContainsAgg(es[1..]))
  }

  // ---------------------------------------------------------------- what an expression reads

  /** The rows hold the same values where the fields point. */
  predicate SameAt(fields: set<Field>, row: Row, row': Row) {
    |row| == |row'| && forall f :: f in fields && 0 <= f.index < |row| ==> row[f.index] == row'[f.index]
  }

  /** An expression without aggregations reads the columns it names and no others. */
  lemma {:induction false} EvalReadsFields(lib: Library, e: Expr, row: Row, row': Row)
    requires !ContainsAgg(e) && SameAt(Fields(e), row, row')
    ensures Eval(lib, e, row) == Eval(lib, e, row')
    decreases e, 1
  {
    match e
    case GetField(i, t, n) => assert Field(i, t, n) in Fields(e);
    case Literal(_) =>
    case And(l, r) => EvalReadsFields(lib, l, row, row'); EvalReadsFields(lib, r, row, row');
    case Or(l, r) => EvalReadsFields(lib, l, row, row'); EvalReadsFields(lib, r, row, row');
    case Compare(_, l, r) => EvalReadsFields(lib, l, row, row'); EvalReadsFields(lib, r, row, row');
    case Not(c) => EvalReadsFields(lib, c, row, row');
    case Alias(_, c) => EvalReadsFields(lib, c, row, row');
    case Call(_, args) => EvalAllReadsFields(lib, args, row, row');
  }

  lemma {:induction false} EvalAllReadsFields(lib: Library, es: seq<Expr>, row: Row, row': Row)
    requires !AnyContainsAgg(es) && SameAt(FieldsOfAll(es), row, row')
    ensures EvalAll(lib, es, row) == EvalAll(lib, es, row')
    decreases es, 0
  {
    if es != [] {
      EvalReadsFields(lib, es[0], row, row');
      EvalAllReadsFields(lib, es[1..], row, row');
    }
  }
}
