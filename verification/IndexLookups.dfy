/**
 Index lookups of the in-memory tables and their merging, from memory/mergeable_index.go,
 memory/ascend_index.go, memory/descend_index.go and memory/negative_index.go. A lookup stands
 for the expression that its rows satisfy.
 */
module IndexLookups {
  import opened Wrappers
  import opened Expressions

  /** An index on one or more expressions of a table. */
  datatype Index = Index(exprs: seq<Expr>)

  datatype Lookup =
    | Get(key: seq<Value>, index: Index)
    | Ascend(gte: seq<Value>, lt: seq<Value>, index: Index)
    | Descend(gt: seq<Value>, lte: seq<Value>, index: Index)
    | Negate(lookup: Lookup, index: Index)
    | Merged(unions: seq<Lookup>, intersections: seq<Lookup>, index: Index)

  // ---------------------------------------------------------------- expressions of lookups

  function AndAll(es: seq<Expr>): Expr
    requires es != []
  {
    if |es| == 1 then es[0] else And(es[0], AndAll(es[1..]))
  }

  function OrAll(es: seq<Expr>): Expr
    requires es != []
  {
    if |es| == 1 then es[0] else Or(es[0], OrAll(es[1..]))
  }

  /** One comparison with a literal for each of the first `n` index expressions, in order. */
  function Comparisons(op: Comparison, exprs: seq<Expr>, key: seq<Value>, n: nat): seq<Expr>
    requires n <= |exprs| && n <= |key|
  {
    seq(n, i requires 0 <= i < n => Compare(op, exprs[i], Literal(key[i])))
  }

  /** The comparisons of a range, column by column: the upper bound before the lower, where given. */
  function Range(low: Comparison, lows: seq<Value>, high: Comparison, highs: seq<Value>, exprs: seq<Expr>, n: nat): seq<Expr>
    requires n <= |exprs| && (lows != [] ==> n <= |lows|) && (highs != [] ==> n <= |highs|)
  {
    if n == 0 then []
    else
      var i := n - 1;
      Range(low, lows, high, highs, exprs, i)
      + (if highs != [] then [Compare(high, exprs[i], Literal(highs[i]))] else [])
      + (if lows != [] then [Compare(low, exprs[i], Literal(lows[i]))] else [])
  }

  /** What the constructors and the evaluation demand: a key for every index expression, a bound, one merge list. */
  predicate WellFormed(l: Lookup) {
    match l
    case Get(key, index) => 0 < |index.exprs| <= |key|
    case Ascend(gte, lt, index) => ValidRange(gte, lt, index)
    case Descend(gt, lte, index) => ValidRange(gt, lte, index)
    case Negate(inner, _) => inner.Get? && WellFormed(inner)
    case Merged(unions, intersections, _) =>
      && (unions == [] <==> intersections != [])
      && (forall m :: m in unions ==> WellFormed(m))
      && (forall m :: m in intersections ==> WellFormed(m))
  }

  predicate ValidRange(lows: seq<Value>, highs: seq<Value>, index: Index) {
    && index.exprs != []
    && (lows != [] || highs != [])
    && (lows != [] ==> |index.exprs| <= |lows|)
    && (highs != [] ==> |index.exprs| <= |highs|)
  }

  /** EvalExpression of each kind of lookup. */
  function ExprOf(l: Lookup): Expr
    requires WellFormed(l)
    decreases l, 1
  {
    match l
    case Get(key, index) => AndAll(Comparisons(Equals, index.exprs, key, |index.exprs|))
    case Ascend(gte, lt, index) =>
      RangeNonEmpty(GreaterThanOrEqual, gte, LessThan, lt, index.exprs, |index.exprs|);
      AndAll(Range(GreaterThanOrEqual, gte, LessThan, lt, index.exprs, |index.exprs|))
    case Descend(gt, lte, index) =>
      RangeNonEmpty(GreaterThan, gt, LessThanOrEqual, lte, index.exprs, |index.exprs|);
      AndAll(Range(GreaterThan, gt, LessThanOrEqual, lte, index.exprs, |index.exprs|))
    case Negate(inner, _) => Not(ExprOf(inner))
    case Merged(unions, intersections, _) =>
      if intersections != [] then AndAll(ExprsOf(intersections)) else OrAll(ExprsOf(unions))
  }

  function ExprsOf(ls: seq<Lookup>): (es: seq<Expr>)
    requires forall m :: m in ls ==> WellFormed(m)
    ensures |es| == |ls| && forall i :: 0 <= i < |ls| ==> es[i] == ExprOf(ls[i])
    decreases ls, 0
  {
    if ls == [] then [] else [ExprOf(ls[0])] + ExprsOf(ls[1..])
  }

  lemma RangeNonEmpty(low: Comparison, lows: seq<Value>, high: Comparison, highs: seq<Value>, exprs: seq<Expr>, n: nat)
    requires 0 < n <= |exprs| && (lows != [] || highs != [])
    requires (lows != [] ==> n <= |lows|) && (highs != [] ==> n <= |highs|)
    ensures Range(low, lows, high, highs, exprs, n) != []
  {
  }

  /** EvalExpression of Ascend and Descend lookups: two comparisons a column at most, in one AND. */
  method RangeExpression(low: Comparison, lows: seq<Value>, high: Comparison, highs: seq<Value>, index: Index) returns (e: Expr)
    requires ValidRange(lows, highs, index)
    ensures Range(low, lows, high, highs, index.exprs, |index.exprs|) != []
    ensures e == AndAll(Range(low, lows, high, highs, index.exprs, |index.exprs|))
  {
    var columnExprs: seq<Expr> := [];
    for i := 0 to |index.exprs|
      invariant columnExprs == Range(low, lows, high, highs, index.exprs, i)
    {
      var hasHigh, hasLow := |highs| > 0, |lows| > 0;
      if hasHigh && hasLow {
        columnExprs := columnExprs + [Compare(high, index.exprs[i], Literal(highs[i]))]
                                   + [Compare(low, index.exprs[i], Literal(lows[i]))];
      } else if hasHigh {
        columnExprs := columnExprs + [Compare(high, index.exprs[i], Literal(highs[i]))];
      } else {
        columnExprs := columnExprs + [Compare(low, index.exprs[i], Literal(lows[i]))];
      }
    }
    RangeNonEmpty(low, lows, high, highs, index.exprs, |index.exprs|);
    e := AndAll(columnExprs);
  }

  method EvalExpression(l: Lookup) returns (e: Expr)
    requires WellFormed(l)
    ensures e == ExprOf(l)
    decreases l
  {
    match l
    case Get(key, index) =>
      var exprs: seq<Expr> := [];
      for i := 0 to |index.exprs|
        invariant exprs == Comparisons(Equals, index.exprs, key, i)
      {
        exprs := exprs + [Compare(Equals, index.exprs[i], Literal(key[i]))];
      }
      e := AndAll(exprs);
    case Ascend(gte, lt, index) => e := RangeExpression(GreaterThanOrEqual, gte, LessThan, lt, index);
    case Descend(gt, lte, index) => e := RangeExpression(GreaterThan, gt, LessThanOrEqual, lte, index);
    case Negate(inner, _) =>
      e := EvalExpression(inner);
      e := Not(e);
    case Merged(unions, intersections, _) =>
      var members := if intersections != [] then intersections else unions;
      var exprs: seq<Expr> := [];
      for i := 0 to |members|
        invariant |exprs| == i && forall k :: 0 <= k < i ==> exprs[k] == ExprOf(members[k])
      {
        var x := EvalExpression(members[i]);
        exprs := exprs + [x];
      }
      assert exprs == ExprsOf(members);
      e := if intersections != [] then AndAll(exprs) else OrAll(exprs);
  }

  // ---------------------------------------------------------------- merging

  predicate IsIntersection(l: Lookup) {
    l.Merged? && l.intersections != []
  }

  predicate IsUnion(l: Lookup) {
    l.Merged? && l.unions != []
  }

  /** The members of an intersection of lookups: intersections give their own members. */
  function Conjoined(ls: seq<Lookup>): seq<Lookup> {
    if ls == [] then []
    else
      var n := |ls| - 1;
      Conjoined(ls[..n]) + (if IsIntersection(ls[n]) then ls[n].intersections else [ls[n]])
  }

  function Disjoined(ls: seq<Lookup>): seq<Lookup> {
    if ls == [] then []
    else
      var n := |ls| - 1;
      Disjoined(ls[..n]) + (if IsUnion(ls[n]) then ls[n].unions else [ls[n]])
  }

  method Intersection(left: Lookup, lookups: seq<Lookup>) returns (r: Lookup)
    ensures r == Merged([], Conjoined([left] + lookups), left.index)
  {
    var merged: seq<Lookup> := [];
    var all := [left] + lookups;
    for i := 0 to |all|
      invariant merged == Conjoined(all[..i])
    {
      assert all[..i + 1][..i] == all[..i];
      if IsIntersection(all[i]) {
        merged := merged + all[i].intersections;
      } else {
        merged := merged + [all[i]];
      }
    }
    assert all[..|all|] == all;
    return Merged([], merged, left.index);
  }

  method Union(left: Lookup, lookups: seq<Lookup>) returns (r: Lookup)
    ensures r == Merged(Disjoined([left] + lookups), [], left.index)
  {
    var merged: seq<Lookup> := [];
    var all := [left] + lookups;
    for i := 0 to |all|
      invariant merged == Disjoined(all[..i])
    {
      assert all[..i + 1][..i] == all[..i];
      if IsUnion(all[i]) {
        merged := merged + all[i].unions;
      } else {
        merged := merged + [all[i]];
      }
    }
    assert all[..|all|] == all;
    return Merged(merged, [], left.index);
  }

  // ---------------------------------------------------------------- results of boolean expressions

  /** An error, NULL or a boolean: what comparisons and logical operators yield. */
  predicate IsBoolean(r: EvalResult) {
    r.Ok? ==> r.value in {Null, Bool(true), Bool(false)}
  }

  /** AND of two results, the left first. */
  function AndResult(a: EvalResult, b: EvalResult): EvalResult {
    if a.Err? || a.value == Bool(false) then a
    else if b.Err? || b.value == Bool(false) then b
    else if a.value == Null then a
    else b
  }

  /** The engine's OR of two results, the left first. */
  function OrResult(a: EvalResult, b: EvalResult): EvalResult {
    if a.Err? || a.value == Bool(true) then a
    else if b.Err? || b.value == Bool(true) then b
    else if a.value == Null then b
    else a
  }

  function FoldAnd(rs: seq<EvalResult>): EvalResult
    requires rs != []
  {
    if |rs| == 1 then rs[0] else AndResult(rs[0], FoldAnd(rs[1..]))
  }

  function FoldOr(rs: seq<EvalResult>): EvalResult
    requires rs != []
  {
    if |rs| == 1 then rs[0] else OrResult(rs[0], FoldOr(rs[1..]))
  }

  predicate AllBoolean(rs: seq<EvalResult>) {
    forall i :: 0 <= i < |rs| ==> IsBoolean(rs[i])
  }

  lemma {:induction false} FoldConcat(a: seq<EvalResult>, b: seq<EvalResult>)
    requires a != [] && b != [] && AllBoolean(a) && AllBoolean(b)
    ensures FoldAnd(a + b) == AndResult(FoldAnd(a), FoldAnd(b)) && IsBoolean(FoldAnd(a))
    ensures FoldOr(a + b) == OrResult(FoldOr(a), FoldOr(b)) && IsBoolean(FoldOr(a))
  {
    assert (a + b)[1..] == a[1..] + b;
    FoldBoolean(b);
    if |a| > 1 {
      FoldConcat(a[1..], b);
    }
  }

  lemma {:induction false} FoldBoolean(rs: seq<EvalResult>)
    requires rs != [] && AllBoolean(rs)
    ensures IsBoolean(FoldAnd(rs)) && IsBoolean(FoldOr(rs))
  {
    if |rs| > 1 {
      FoldBoolean(rs[1..]);
    }
  }

  /** The results of a list of expressions, in order. */
  function Results(lib: Library, es: seq<Expr>, row: Row): seq<EvalResult> {
    seq(|es|, i requires 0 <= i < |es| => Eval(lib, es[i], row))
  }

  lemma {:induction false} EvalAndOrAll(lib: Library, es: seq<Expr>, row: Row)
    requires es != [] && AllBoolean(Results(lib, es, row))
    ensures Eval(lib, AndAll(es), row) == FoldAnd(Results(lib, es, row))
    ensures Eval(lib, OrAll(es), row) == FoldOr(Results(lib, es, row))
  {
    assert Results(lib, es, row)[0] == Eval(lib, es[0], row);
    if |es| > 1 {
      assert Results(lib, es, row)[1..] == Results(lib, es[1..], row);
      EvalAndOrAll(lib, es[1..], row);
      FoldBoolean(Results(lib, es[1..], row));
    }
  }

  // ---------------------------------------------------------------- meaning of lookups

  /** What the expression of a lookup yields on a row. */
  function ResultOf(lib: Library, l: Lookup, row: Row): EvalResult
    requires WellFormed(l)
  {
    Eval(lib, ExprOf(l), row)
  }

  function ResultsOf(lib: Library, ls: seq<Lookup>, row: Row): seq<EvalResult>
    requires forall m :: m in ls ==> WellFormed(m)
  {
    seq(|ls|, i requires 0 <= i < |ls| => ResultOf(lib, ls[i], row))
  }

  lemma ComparisonsBoolean(lib: Library, es: seq<Expr>, row: Row)
    requires forall i :: 0 <= i < |es| ==> es[i].Compare?
    ensures AllBoolean(Results(lib, es, row))
  {
  }

  lemma {:induction false} RangeCompares(low: Comparison, lows: seq<Value>, high: Comparison, highs: seq<Value>, exprs: seq<Expr>, n: nat)
    requires n <= |exprs| && (lows != [] ==> n <= |lows|) && (highs != [] ==> n <= |highs|)
    ensures forall i :: 0 <= i < |Range(low, lows, high, highs, exprs, n)| ==> Range(low, lows, high, highs, exprs, n)[i].Compare?
  {
    if n > 0 {
      RangeCompares(low, lows, high, highs, exprs, n - 1);
    }
  }

  lemma {:induction false} LookupBoolean(lib: Library, l: Lookup, row: Row)
    requires WellFormed(l)
    ensures IsBoolean(ResultOf(lib, l, row))
    decreases l
  {
    match l
    case Get(key, index) =>
      var es := Comparisons(Equals, index.exprs, key, |index.exprs|);
      ComparisonsBoolean(lib, es, row);
      EvalAndOrAll(lib, es, row);
      FoldBoolean(Results(lib, es, row));
    case Ascend(gte, lt, index) =>
      RangeBoolean(lib, GreaterThanOrEqual, gte, LessThan, lt, index, row);
    case Descend(gt, lte, index) =>
      RangeBoolean(lib, GreaterThan, gt, LessThanOrEqual, lte, index, row);
    case Negate(_, _) =>
    case Merged(unions, intersections, _) =>
      var members := if intersections != [] then intersections else unions;
      forall i | 0 <= i < |members|
        ensures IsBoolean(ResultOf(lib, members[i], row))
      {
        LookupBoolean(lib, members[i], row);
      }
      MembersResult(lib, members, row);
      FoldBoolean(ResultsOf(lib, members, row));
  }

  lemma RangeBoolean(lib: Library, low: Comparison, lows: seq<Value>, high: Comparison, highs: seq<Value>, index: Index, row: Row)
    requires ValidRange(lows, highs, index)
    ensures var es := Range(low, lows, high, highs, index.exprs, |index.exprs|);
            && es != [] && AllBoolean(Results(lib, es, row))
            && Eval(lib, AndAll(es), row) == FoldAnd(Results(lib, es, row))
            && IsBoolean(Eval(lib, AndAll(es), row))
  {
    var es := Range(low, lows, high, highs, index.exprs, |index.exprs|);
    RangeNonEmpty(low, lows, high, highs, index.exprs, |index.exprs|);
    RangeCompares(low, lows, high, highs, index.exprs, |index.exprs|);
    ComparisonsBoolean(lib, es, row);
    EvalAndOrAll(lib, es, row);
    FoldBoolean(Results(lib, es, row));
  }

  lemma MembersResult(lib: Library, members: seq<Lookup>, row: Row)
    requires members != [] && forall m :: m in members ==> WellFormed(m)
    requires AllBoolean(ResultsOf(lib, members, row))
    ensures Eval(lib, AndAll(ExprsOf(members)), row) == FoldAnd(ResultsOf(lib, members, row))
    ensures Eval(lib, OrAll(ExprsOf(members)), row) == FoldOr(ResultsOf(lib, members, row))
  {
    assert Results(lib, ExprsOf(members), row) == ResultsOf(lib, members, row);
    EvalAndOrAll(lib, ExprsOf(members), row);
  }

  lemma LookupsBoolean(lib: Library, ls: seq<Lookup>, row: Row)
    requires forall m :: m in ls ==> WellFormed(m)
    ensures AllBoolean(ResultsOf(lib, ls, row))
  {
    forall i | 0 <= i < |ls|
      ensures IsBoolean(ResultsOf(lib, ls, row)[i])
    {
      LookupBoolean(lib, ls[i], row);
    }
  }

  /** A merged lookup yields the AND or the OR of its members. */
  lemma MergedResult(lib: Library, l: Lookup, row: Row)
    requires WellFormed(l) && l.Merged?
    ensures IsIntersection(l) ==> ResultOf(lib, l, row) == FoldAnd(ResultsOf(lib, l.intersections, row))
    ensures IsUnion(l) ==> ResultOf(lib, l, row) == FoldOr(ResultsOf(lib, l.unions, row))
  {
    var members := if l.intersections != [] then l.intersections else l.unions;
    LookupsBoolean(lib, members, row);
    MembersResult(lib, members, row);
  }

  /** The AND, and the OR, of a list of lookups on a row. */
  function AllOf(lib: Library, ls: seq<Lookup>, row: Row): EvalResult
    requires ls != [] && forall m :: m in ls ==> WellFormed(m)
  {
    FoldAnd(ResultsOf(lib, ls, row))
  }

  function AnyOf(lib: Library, ls: seq<Lookup>, row: Row): EvalResult
    requires ls != [] && forall m :: m in ls ==> WellFormed(m)
  {
    FoldOr(ResultsOf(lib, ls, row))
  }

  lemma OfOne(lib: Library, l: Lookup, row: Row)
    requires WellFormed(l)
    ensures AllOf(lib, [l], row) == AnyOf(lib, [l], row) == ResultOf(lib, l, row)
  {
    assert ResultsOf(lib, [l], row) == [ResultOf(lib, l, row)];
  }

  lemma OfConcat(lib: Library, a: seq<Lookup>, b: seq<Lookup>, row: Row)
    requires a != [] && b != []
    requires (forall m :: m in a ==> WellFormed(m)) && (forall m :: m in b ==> WellFormed(m))
    ensures AllOf(lib, a + b, row) == AndResult(AllOf(lib, a, row), AllOf(lib, b, row))
    ensures AnyOf(lib, a + b, row) == OrResult(AnyOf(lib, a, row), AnyOf(lib, b, row))
  {
    LookupsBoolean(lib, a, row);
    LookupsBoolean(lib, b, row);
    assert ResultsOf(lib, a + b, row) == ResultsOf(lib, a, row) + ResultsOf(lib, b, row);
    FoldConcat(ResultsOf(lib, a, row), ResultsOf(lib, b, row));
  }

  /** What one operand contributes to an intersection or a union has the result of the operand. */
  lemma ConjoinedOne(lib: Library, l: Lookup, row: Row)
    requires WellFormed(l)
    ensures var members := if IsIntersection(l) then l.intersections else [l];
            members != [] && (forall m :: m in members ==> WellFormed(m)) && AllOf(lib, members, row) == ResultOf(lib, l, row)
  {
    OfOne(lib, l, row);
    if IsIntersection(l) { MergedResult(lib, l, row); }
  }

  lemma DisjoinedOne(lib: Library, l: Lookup, row: Row)
    requires WellFormed(l)
    ensures var members := if IsUnion(l) then l.unions else [l];
            members != [] && (forall m :: m in members ==> WellFormed(m)) && AnyOf(lib, members, row) == ResultOf(lib, l, row)
  {
    OfOne(lib, l, row);
    if IsUnion(l) { MergedResult(lib, l, row); }
  }

  /** Flattening the operands of an intersection changes nothing, errors included. */
  lemma {:induction false} ConjoinedResult(lib: Library, ls: seq<Lookup>, row: Row)
    requires ls != [] && forall m :: m in ls ==> WellFormed(m)
    ensures Conjoined(ls) != [] && forall m :: m in Conjoined(ls) ==> WellFormed(m)
    ensures AllOf(lib, Conjoined(ls), row) == AllOf(lib, ls, row)
  {
    var n := |ls| - 1;
    var init, last := ls[..n], ls[n];
    var members := if IsIntersection(last) then last.intersections else [last];
    ConjoinedOne(lib, last, row);
    OfOne(lib, last, row);
    assert ls == init + [last];
    if n == 0 {
      assert Conjoined(init) + members == members && init + [last] == [last];
    } else {
      ConjoinedResult(lib, init, row);
      OfConcat(lib, Conjoined(init), members, row);
      OfConcat(lib, init, [last], row);
    }
  }

  lemma {:induction false} DisjoinedResult(lib: Library, ls: seq<Lookup>, row: Row)
    requires ls != [] && forall m :: m in ls ==> WellFormed(m)
    ensures Disjoined(ls) != [] && forall m :: m in Disjoined(ls) ==> WellFormed(m)
    ensures AnyOf(lib, Disjoined(ls), row) == AnyOf(lib, ls, row)
  {
    var n := |ls| - 1;
    var init, last := ls[..n], ls[n];
    var members := if IsUnion(last) then last.unions else [last];
    DisjoinedOne(lib, last, row);
    OfOne(lib, last, row);
    assert ls == init + [last];
    if n == 0 {
      assert Disjoined(init) + members == members && init + [last] == [last];
    } else {
      DisjoinedResult(lib, init, row);
      OfConcat(lib, Disjoined(init), members, row);
      OfConcat(lib, init, [last], row);
    }
  }

  // ---------------------------------------------------------------- trees of merges

  /** How lookups get merged: any nesting of Intersection and Union calls over plain lookups. */
  datatype Tree = Leaf(lookup: Lookup) | All(operands: seq<Tree>) | Any(operands: seq<Tree>)

  predicate ValidTree(t: Tree) {
    match t
    case Leaf(l) => WellFormed(l) && !l.Merged?
    case All(ts) => ts != [] && forall x :: x in ts ==> ValidTree(x)
    case Any(ts) => ts != [] && forall x :: x in ts ==> ValidTree(x)
  }

  /** The lookup the calls build, operands first. */
  function Build(t: Tree): (l: Lookup)
    requires ValidTree(t)
    ensures WellFormed(l) && Flat(l)
    decreases t, 1
  {
    match t
    case Leaf(l) => l
    case All(ts) =>
      var ls := BuildAll(ts);
      MergeShape(ls);
      Merged([], Conjoined(ls), ls[0].index)
    case Any(ts) =>
      var ls := BuildAll(ts);
      MergeShape(ls);
      Merged(Disjoined(ls), [], ls[0].index)
  }

  function BuildAll(ts: seq<Tree>): (ls: seq<Lookup>)
    requires forall x :: x in ts ==> ValidTree(x)
    ensures |ls| == |ts| && forall i :: 0 <= i < |ts| ==> ls[i] == Build(ts[i])
    decreases ts, 0
  {
    if ts == [] then [] else [Build(ts[0])] + BuildAll(ts[1..])
  }

  /** Exactly one merge list is set, and no member is a merge of the same kind again. */
  predicate Flat(l: Lookup) {
    l.Merged? ==>
      && (l.unions == [] <==> l.intersections != [])
      && (forall m :: m in l.intersections ==> !IsIntersection(m) && Flat(m))
      && (forall m :: m in l.unions ==> !IsUnion(m) && Flat(m))
  }

  lemma {:induction false} MergeShape(ls: seq<Lookup>)
    requires ls != [] && forall m :: m in ls ==> WellFormed(m) && Flat(m)
    ensures Conjoined(ls) != [] && forall m :: m in Conjoined(ls) ==> WellFormed(m) && !IsIntersection(m) && Flat(m)
    ensures Disjoined(ls) != [] && forall m :: m in Disjoined(ls) ==> WellFormed(m) && !IsUnion(m) && Flat(m)
  {
    var n := |ls| - 1;
    var front, last := ls[..n], ls[n];
    assert last in ls && forall m :: m in front ==> m in ls;
    if n > 0 {
      MergeShape(front);
    } else {
      assert Conjoined(front) == [] && Disjoined(front) == [];
    }
    assert Conjoined(ls) == Conjoined(front) + if IsIntersection(last) then last.intersections else [last];
    assert Disjoined(ls) == Disjoined(front) + if IsUnion(last) then last.unions else [last];
  }

  /** The AND or OR of the operands' meanings, in call order, with the engine's AND and OR. */
  function Meaning(lib: Library, t: Tree, row: Row): EvalResult
    requires ValidTree(t)
    decreases t, 1
  {
    match t
    case Leaf(l) => ResultOf(lib, l, row)
    case All(ts) => FoldAnd(Meanings(lib, ts, row))
    case Any(ts) => FoldOr(Meanings(lib, ts, row))
  }

  function Meanings(lib: Library, ts: seq<Tree>, row: Row): (rs: seq<EvalResult>)
    requires forall x :: x in ts ==> ValidTree(x)
    ensures |rs| == |ts| && forall i :: 0 <= i < |ts| ==> rs[i] == Meaning(lib, ts[i], row)
    decreases ts, 0
  {
    if ts == [] then [] else [Meaning(lib, ts[0], row)] + Meanings(lib, ts[1..], row)
  }

  lemma AllKeepsMeaning(lib: Library, ts: seq<Tree>, row: Row)
    requires ts != [] && (forall x :: x in ts ==> ValidTree(x))
    requires ResultsOf(lib, BuildAll(ts), row) == Meanings(lib, ts, row)
    ensures ResultOf(lib, Build(All(ts)), row) == Meaning(lib, All(ts), row)
  {
    var ls := BuildAll(ts);
    MergedResult(lib, Build(All(ts)), row);
    ConjoinedResult(lib, ls, row);
  }

  lemma AnyKeepsMeaning(lib: Library, ts: seq<Tree>, row: Row)
    requires ts != [] && (forall x :: x in ts ==> ValidTree(x))
    requires ResultsOf(lib, BuildAll(ts), row) == Meanings(lib, ts, row)
    ensures ResultOf(lib, Build(Any(ts)), row) == Meaning(lib, Any(ts), row)
  {
    var ls := BuildAll(ts);
    MergedResult(lib, Build(Any(ts)), row);
    DisjoinedResult(lib, ls, row);
  }

  /** The flattened lookup built by any tree of calls yields on every row what the tree means, errors included. */
  lemma {:induction false} BuildKeepsMeaning(lib: Library, t: Tree, row: Row)
    requires ValidTree(t)
    ensures ResultOf(lib, Build(t), row) == Meaning(lib, t, row)
    decreases t, 1
  {
    match t
    case Leaf(_) =>
    case All(ts) =>
      OperandsKeepMeaning(lib, ts, row);
      AllKeepsMeaning(lib, ts, row);
    case Any(ts) =>
      OperandsKeepMeaning(lib, ts, row);
      AnyKeepsMeaning(lib, ts, row);
  }

  lemma {:induction false} OperandsKeepMeaning(lib: Library, ts: seq<Tree>, row: Row)
    requires forall x :: x in ts ==> ValidTree(x)
    ensures ResultsOf(lib, BuildAll(ts), row) == Meanings(lib, ts, row)
    decreases ts, 0
  {
    forall i | 0 <= i < |ts|
      ensures ResultsOf(lib, BuildAll(ts), row)[i] == Meanings(lib, ts, row)[i]
    {
      BuildKeepsMeaning(lib, ts[i], row);
    }
  }

  // ---------------------------------------------------------------- when a merged lookup holds

  const YES: EvalResult := Ok(Bool(true))

  /** Result `i` is a yes that evaluation from the left reaches. */
  predicate FirstYes(rs: seq<EvalResult>, i: nat) {
    i < |rs| && rs[i] == YES && forall k :: 0 <= k < i ==> rs[k].Ok?
  }

  lemma {:induction false} FoldTrue(rs: seq<EvalResult>)
    requires rs != [] && AllBoolean(rs)
    ensures FoldAnd(rs) == YES <==> forall i :: 0 <= i < |rs| ==> rs[i] == YES
    ensures FoldOr(rs) == YES <==> exists i :: 0 <= i < |rs| && FirstYes(rs, i)
  {
    if |rs| > 1 {
      var rest := rs[1..];
      FoldTrue(rest);
      FoldBoolean(rest);
      assert rs == [rs[0]] + rest;
      if rs[0] == YES {
        assert FirstYes(rs, 0);
      } else if rs[0].Ok? && FoldOr(rest) == YES {
        var i :| 0 <= i < |rest| && FirstYes(rest, i);
        assert FirstYes(rs, i + 1);
      } else if i :| 0 <= i < |rs| && FirstYes(rs, i) {
        assert rs[0].Ok? && FirstYes(rest, i - 1);
      }
    } else {
      assert FirstYes(rs, 0) <==> rs[0] == YES;
    }
  }

  /** The results on a row of the operands, each built on its own. */
  function OperandResults(lib: Library, ts: seq<Tree>, row: Row): seq<EvalResult>
    requires forall x :: x in ts ==> ValidTree(x)
  {
    seq(|ts|, i requires 0 <= i < |ts| => ResultOf(lib, Build(ts[i]), row))
  }

  lemma OperandResultsAre(lib: Library, ts: seq<Tree>, row: Row)
    requires forall x :: x in ts ==> ValidTree(x)
    ensures OperandResults(lib, ts, row) == Meanings(lib, ts, row) && AllBoolean(OperandResults(lib, ts, row))
  {
    OperandsKeepMeaning(lib, ts, row);
    LookupsBoolean(lib, BuildAll(ts), row);
    assert OperandResults(lib, ts, row) == ResultsOf(lib, BuildAll(ts), row);
  }

  /** An intersection holds on a row exactly when all its operands do. */
  lemma IntersectionHoldsIff(lib: Library, ts: seq<Tree>, row: Row)
    requires ts != [] && forall x :: x in ts ==> ValidTree(x)
    ensures ResultOf(lib, Build(All(ts)), row) == YES <==>
            forall i :: 0 <= i < |ts| ==> OperandResults(lib, ts, row)[i] == YES
  {
    BuildKeepsMeaning(lib, All(ts), row);
    OperandResultsAre(lib, ts, row);
    FoldTrue(OperandResults(lib, ts, row));
  }

  /** A union holds exactly when one of its operands does and none before it fails. */
  lemma UnionHoldsIff(lib: Library, ts: seq<Tree>, row: Row)
    requires ts != [] && forall x :: x in ts ==> ValidTree(x)
    ensures ResultOf(lib, Build(Any(ts)), row) == YES <==>
            exists i :: 0 <= i < |ts| && FirstYes(OperandResults(lib, ts, row), i)
  {
    BuildKeepsMeaning(lib, Any(ts), row);
    OperandResultsAre(lib, ts, row);
    FoldTrue(OperandResults(lib, ts, row));
  }

  /** Both bounds of one column hold, where given. */
  predicate InBounds(lib: Library, low: Comparison, lows: seq<Value>, high: Comparison, highs: seq<Value>, exprs: seq<Expr>, i: nat, row: Row)
    requires i < |exprs| && (lows != [] ==> i < |lows|) && (highs != [] ==> i < |highs|)
  {
    && (lows != [] ==> ColumnStands(lib, low, exprs[i], lows[i], row))
    && (highs != [] ==> ColumnStands(lib, high, exprs[i], highs[i], row))
  }

  /** The expression evaluates to a value other than NULL, in the given relation to the bound. */
  predicate ColumnStands(lib: Library, op: Comparison, e: Expr, bound: Value, row: Row) {
    Eval(lib, e, row).Ok? && Stands(lib, op, Eval(lib, e, row).value, bound)
  }

  lemma ColumnStandsIff(lib: Library, op: Comparison, e: Expr, bound: Value, row: Row)
    ensures Eval(lib, Compare(op, e, Literal(bound)), row) == YES <==> ColumnStands(lib, op, e, bound, row)
  {
    CompareIff(lib, op, e, Literal(bound), row);
  }

  lemma {:induction false} RangeMembers(lib: Library, low: Comparison, lows: seq<Value>, high: Comparison, highs: seq<Value>, exprs: seq<Expr>, n: nat, row: Row)
    requires n <= |exprs| && (lows != [] ==> n <= |lows|) && (highs != [] ==> n <= |highs|)
    ensures (forall e :: e in Range(low, lows, high, highs, exprs, n) ==> Eval(lib, e, row) == YES) <==>
            forall i :: 0 <= i < n ==> InBounds(lib, low, lows, high, highs, exprs, i, row)
  {
    if n > 0 {
      RangeMembers(lib, low, lows, high, highs, exprs, n - 1, row);
      var before := Range(low, lows, high, highs, exprs, n - 1);
      var h := if highs != [] then [Compare(high, exprs[n - 1], Literal(highs[n - 1]))] else [];
      var l := if lows != [] then [Compare(low, exprs[n - 1], Literal(lows[n - 1]))] else [];
      assert Range(low, lows, high, highs, exprs, n) == before + h + l;
      assert forall e :: e in before + h + l <==> e in before || e in h || e in l;
      assert (forall e :: e in h ==> Eval(lib, e, row) == YES) && (forall e :: e in l ==> Eval(lib, e, row) == YES) <==>
             InBounds(lib, low, lows, high, highs, exprs, n - 1, row) by {
        if highs != [] {
          assert h[0] in h;
          ColumnStandsIff(lib, high, exprs[n - 1], highs[n - 1], row);
        }
        if lows != [] {
          assert l[0] in l;
          ColumnStandsIff(lib, low, exprs[n - 1], lows[n - 1], row);
        }
      }
    }
  }

  /** An ascending or descending lookup holds exactly on the rows whose every index column is within the bounds given. */
  lemma RangeHoldsIff(lib: Library, l: Lookup, row: Row)
    requires WellFormed(l) && (l.Ascend? || l.Descend?)
    ensures l.Ascend? ==>
              (ResultOf(lib, l, row) == YES <==>
               forall i :: 0 <= i < |l.index.exprs| ==>
                 InBounds(lib, GreaterThanOrEqual, l.gte, LessThan, l.lt, l.index.exprs, i, row))
    ensures l.Descend? ==>
              (ResultOf(lib, l, row) == YES <==>
               forall i :: 0 <= i < |l.index.exprs| ==>
                 InBounds(lib, GreaterThan, l.gt, LessThanOrEqual, l.lte, l.index.exprs, i, row))
  {
    if l.Ascend? {
      BoundsHoldIff(lib, GreaterThanOrEqual, l.gte, LessThan, l.lt, l.index, row);
    } else {
      BoundsHoldIff(lib, GreaterThan, l.gt, LessThanOrEqual, l.lte, l.index, row);
    }
  }

  lemma BoundsHoldIff(lib: Library, low: Comparison, lows: seq<Value>, high: Comparison, highs: seq<Value>, index: Index, row: Row)
    requires ValidRange(lows, highs, index)
    ensures Range(low, lows, high, highs, index.exprs, |index.exprs|) != []
    ensures Eval(lib, AndAll(Range(low, lows, high, highs, index.exprs, |index.exprs|)), row) == YES <==>
            forall i :: 0 <= i < |index.exprs| ==> InBounds(lib, low, lows, high, highs, index.exprs, i, row)
  {
    var es := Range(low, lows, high, highs, index.exprs, |index.exprs|);
    var rs := Results(lib, es, row);
    RangeBoolean(lib, low, lows, high, highs, index, row);
    FoldTrue(rs);
    RangeMembers(lib, low, lows, high, highs, index.exprs, |index.exprs|, row);
    assert (forall i :: 0 <= i < |es| ==> rs[i] == YES) <==> (forall e :: e in es ==> Eval(lib, e, row) == YES) by {
      assert forall i :: 0 <= i < |es| ==> es[i] in es && rs[i] == Eval(lib, es[i], row);
    }
  }

  const NO: EvalResult := Ok(Bool(false))

  /** Result `i` is a no that evaluation from the left reaches. */
  predicate FirstNo(rs: seq<EvalResult>, i: nat) {
    i < |rs| && rs[i] == NO && forall k :: 0 <= k < i ==> rs[k].Ok?
  }

  lemma {:induction false} FoldFalse(rs: seq<EvalResult>)
    requires rs != [] && AllBoolean(rs)
    ensures FoldAnd(rs) == NO <==> exists i :: 0 <= i < |rs| && FirstNo(rs, i)
  {
    if |rs| > 1 {
      var rest := rs[1..];
      FoldFalse(rest);
      FoldBoolean(rest);
      assert rs == [rs[0]] + rest;
      if rs[0] == NO {
        assert FirstNo(rs, 0);
      } else if rs[0].Ok? && FoldAnd(rest) == NO {
        var i :| 0 <= i < |rest| && FirstNo(rest, i);
        assert FirstNo(rs, i + 1);
      } else if i :| 0 <= i < |rs| && FirstNo(rs, i) {
        assert rs[0].Ok? && FirstNo(rest, i - 1);
      }
    } else {
      assert FirstNo(rs, 0) <==> rs[0] == NO;
    }
  }

  /** Result `i` is this error, and evaluation from the left reaches it: no result before it is an error or decides. */
  predicate Stops(rs: seq<EvalResult>, decides: EvalResult, i: nat, x: Error) {
    i < |rs| && rs[i] == Err(x) && forall k :: 0 <= k < i ==> rs[k].Ok? && rs[k] != decides
  }

  lemma StopsLater(rs: seq<EvalResult>, decides: EvalResult, i: nat, x: Error)
    requires 0 < i && rs != []
    ensures Stops(rs, decides, i, x) <==> rs[0].Ok? && rs[0] != decides && Stops(rs[1..], decides, i - 1, x)
  {
    assert rs == [rs[0]] + rs[1..];
    if rs[0].Ok? && rs[0] != decides && Stops(rs[1..], decides, i - 1, x) {
      assert forall k :: 0 < k < i ==> rs[k] == rs[1..][k - 1];
    }
  }

  lemma {:induction false} FoldFails(rs: seq<EvalResult>, x: Error)
    requires rs != [] && AllBoolean(rs)
    ensures FoldAnd(rs) == Err(x) <==> exists i :: 0 <= i < |rs| && Stops(rs, NO, i, x)
    ensures FoldOr(rs) == Err(x) <==> exists i :: 0 <= i < |rs| && Stops(rs, YES, i, x)
  {
    FailsFirst(rs, NO, x);
    FailsFirst(rs, YES, x);
    if |rs| > 1 {
      FoldFails(rs[1..], x);
      FoldBoolean(rs[1..]);
    }
  }

  /** The first result is the error, or it lets evaluation go on and a later one is. */
  lemma FailsFirst(rs: seq<EvalResult>, decides: EvalResult, x: Error)
    requires rs != [] && decides.Ok?
    ensures (exists i :: 0 <= i < |rs| && Stops(rs, decides, i, x)) <==>
            rs[0] == Err(x) ||
            (rs[0].Ok? && rs[0] != decides && exists i :: 0 <= i < |rs[1..]| && Stops(rs[1..], decides, i, x))
  {
    if i :| 0 <= i < |rs| && Stops(rs, decides, i, x) {
      if i > 0 {
        StopsLater(rs, decides, i, x);
      }
    }
    if rs[0] == Err(x) {
      assert Stops(rs, decides, 0, x);
    } else if i :| rs[0].Ok? && rs[0] != decides && 0 <= i < |rs[1..]| && Stops(rs[1..], decides, i, x) {
      StopsLater(rs, decides, i + 1, x);
    }
  }

  /** Merged lookups fail with the error of an operand that evaluation in call order reaches. */
  lemma MergesFailIff(lib: Library, ts: seq<Tree>, row: Row, x: Error)
    requires ts != [] && forall t :: t in ts ==> ValidTree(t)
    ensures ResultOf(lib, Build(All(ts)), row) == Err(x) <==>
            exists i :: 0 <= i < |ts| && Stops(OperandResults(lib, ts, row), NO, i, x)
    ensures ResultOf(lib, Build(Any(ts)), row) == Err(x) <==>
            exists i :: 0 <= i < |ts| && Stops(OperandResults(lib, ts, row), YES, i, x)
  {
    BuildKeepsMeaning(lib, All(ts), row);
    BuildKeepsMeaning(lib, Any(ts), row);
    OperandResultsAre(lib, ts, row);
    FoldFails(OperandResults(lib, ts, row), x);
  }

  /** The results of comparing each index column with its key, in order. */
  function KeyResults(lib: Library, l: Lookup, row: Row): seq<EvalResult>
    requires l.Get? && WellFormed(l)
  {
    seq(|l.index.exprs|, i requires 0 <= i < |l.index.exprs| => Eval(lib, Compare(Equals, l.index.exprs[i], Literal(l.key[i])), row))
  }

  lemma GetResult(lib: Library, l: Lookup, row: Row)
    requires l.Get? && WellFormed(l)
    ensures AllBoolean(KeyResults(lib, l, row)) && ResultOf(lib, l, row) == FoldAnd(KeyResults(lib, l, row))
  {
    var es := Comparisons(Equals, l.index.exprs, l.key, |l.index.exprs|);
    assert Results(lib, es, row) == KeyResults(lib, l, row);
    ComparisonsBoolean(lib, es, row);
    EvalAndOrAll(lib, es, row);
  }

  /** Column `i` equals its key. */
  predicate KeyStands(lib: Library, l: Lookup, i: nat, row: Row)
    requires l.Get? && WellFormed(l) && i < |l.index.exprs|
  {
    ColumnStands(lib, Equals, l.index.exprs[i], l.key[i], row)
  }

  /** A lookup of keys holds exactly on the rows whose every index column equals its key. */
  lemma GetHoldsIff(lib: Library, l: Lookup, row: Row)
    requires l.Get? && WellFormed(l)
    ensures ResultOf(lib, l, row) == YES <==> forall i :: 0 <= i < |l.index.exprs| ==> KeyStands(lib, l, i, row)
  {
    GetResult(lib, l, row);
    FoldTrue(KeyResults(lib, l, row));
    forall i | 0 <= i < |l.index.exprs|
      ensures KeyResults(lib, l, row)[i] == YES <==> KeyStands(lib, l, i, row)
    {
      ColumnStandsIff(lib, Equals, l.index.exprs[i], l.key[i], row);
    }
  }

  /** A lookup of keys fails with the error of the first comparison that has one, unless a column differs before it. */
  lemma GetFailsIff(lib: Library, l: Lookup, row: Row, x: Error)
    requires l.Get? && WellFormed(l)
    ensures ResultOf(lib, l, row) == Err(x) <==>
            exists i :: 0 <= i < |l.index.exprs| && Stops(KeyResults(lib, l, row), NO, i, x)
  {
    GetResult(lib, l, row);
    FoldFails(KeyResults(lib, l, row), x);
  }

  /** Comparing column `i` with its key meets no error. */
  predicate KeyCompares(lib: Library, l: Lookup, i: nat, row: Row)
    requires l.Get? && WellFormed(l) && i < |l.index.exprs|
  {
    var v := Eval(lib, l.index.exprs[i], row);
    v.Ok? && (v.value != Null && l.key[i] != Null ==> lib.compare(v.value, l.key[i]).Ok?)
  }

  /** Column `i` is not NULL and differs from its key, which is not NULL, and no column before it fails to compare. */
  predicate KeyDiffers(lib: Library, l: Lookup, i: nat, row: Row)
    requires l.Get? && WellFormed(l)
  {
    && i < |l.index.exprs| && KeyCompares(lib, l, i, row) && (forall k :: 0 <= k < i ==> KeyCompares(lib, l, k, row))
    && Eval(lib, l.index.exprs[i], row).value != Null && l.key[i] != Null
    && lib.compare(Eval(lib, l.index.exprs[i], row).value, l.key[i]).value != 0
  }

  lemma FirstNoIff(lib: Library, l: Lookup, i: nat, row: Row)
    requires l.Get? && WellFormed(l) && i < |l.index.exprs|
    ensures FirstNo(KeyResults(lib, l, row), i) <==> KeyDiffers(lib, l, i, row)
  {
    forall k | 0 <= k < |l.index.exprs|
      ensures KeyResults(lib, l, row)[k].Ok? <==> KeyCompares(lib, l, k, row)
    {
      CompareIff(lib, Equals, l.index.exprs[k], Literal(l.key[k]), row);
    }
    CompareIff(lib, Equals, l.index.exprs[i], Literal(l.key[i]), row);
  }

  /**
   Its negation holds exactly on the rows where an index column differs from its key and none before
   it fails to compare: not on rows where the columns are equal or NULL.
   */
  lemma NegateHoldsIff(lib: Library, l: Lookup, row: Row)
    requires l.Negate? && WellFormed(l)
    ensures ResultOf(lib, l, row) == YES <==>
            exists i :: 0 <= i < |l.lookup.index.exprs| && KeyDiffers(lib, l.lookup, i, row)
  {
    GetResult(lib, l.lookup, row);
    FoldFalse(KeyResults(lib, l.lookup, row));
    FoldBoolean(KeyResults(lib, l.lookup, row));
    assert ResultOf(lib, l, row) == Eval(lib, Not(ExprOf(l.lookup)), row);
    forall i | 0 <= i < |l.lookup.index.exprs|
      ensures FirstNo(KeyResults(lib, l.lookup, row), i) <==> KeyDiffers(lib, l.lookup, i, row)
    {
      FirstNoIff(lib, l.lookup, i, row);
    }
  }
}
