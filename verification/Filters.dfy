/** Splitting a predicate into per-table filters and tracking which are handled, from sql/analyzer/filters.go. */
module Filters {
  import opened Wrappers
  import opened Expressions
  import opened Picking

  type FiltersByTable = map<string, seq<Expr>>

  // ---------------------------------------------------------------- conjuncts

  function SplitConjunction(e: Expr): seq<Expr> {
    if e.And? then SplitConjunction(e.left) + SplitConjunction(e.right) else [e]
  }

  /** A conjunct is reached through ANDs only, and is none itself. */
  predicate IsConjunct(c: Expr, e: Expr) {
    !c.And? && (c == e || (e.And? && (IsConjunct(c, e.left) || IsConjunct(c, e.right))))
  }

  /** Splitting finds exactly the conjuncts: no AND is left at the top of one. */
  lemma {:induction false} SplitIff(e: Expr, c: Expr)
    ensures c in SplitConjunction(e) <==> IsConjunct(c, e)
  {
    if e.And? {
      SplitIff(e.left, c);
      SplitIff(e.right, c);
    }
  }

  /** The tables whose columns an expression reads. */
  function Tables(e: Expr): set<string> {
    set f | f in Fields(e) :: f.table
  }

  /** The expressions that read this table and no other, in order. */
  function ForTable(es: seq<Expr>, table: string): seq<Expr> {
    if es == [] then []
    else
      var before := ForTable(es[..|es| - 1], table);
      if Tables(es[|es| - 1]) == {table} then before + [es[|es| - 1]] else before
  }

  /** They are picked out of the list: in its order, and as often as they stand there. */
  lemma {:induction false} ForTablePicks(es: seq<Expr>, table: string)
    ensures Picked(es, e => Tables(e) == {table}, ForTable(es, table))
  {
    var keep := e => Tables(e) == {table};
    if es == [] {
      PicksNone(keep);
    } else {
      var n := |es| - 1;
      ForTablePicks(es[..n], table);
      PicksMore(es[..n], keep, ForTable(es[..n], table), es[n]);
      assert es[..n] + [es[n]] == es;
    }
  }

  /** Each list of the map holds the expressions of its table, in order; a table without any has no list. */
  ghost predicate Sorted(m: FiltersByTable, es: seq<Expr>) {
    forall t: string :: ForTable(es, t) == if t in m then m[t] else []
  }

  lemma Singleton<T>(s: set<T>, x: T)
    requires |s| == 1 && x in s
    ensures s == {x}
  {
    var rest := s - {x};
    assert |rest| == 0;
    assert s == rest + {x};
  }

  function Append(m: FiltersByTable, table: string, e: Expr): FiltersByTable {
    m[table := (if table in m then m[table] else []) + [e]]
  }

  lemma SortedStep(m: FiltersByTable, es: seq<Expr>, e: Expr, table: string)
    requires Sorted(m, es) && Tables(e) == {table}
    ensures Sorted(Append(m, table, e), es + [e])
  {
    forall t: string
      ensures ForTable(es + [e], t) == if t in Append(m, table, e) then Append(m, table, e)[t] else []
    {
      assert (es + [e])[..|es|] == es;
      assert ForTable(es, t) == if t in m then m[t] else [];
      assert table in Tables(e);
      assert Tables(e) == {t} <==> t == table;
    }
  }

  predicate OneTable(e: Expr) {
    |Tables(e)| == 1
  }

  /** The inspection of one conjunct: its table, if it reads exactly one. */
  method InspectTables(e: Expr) returns (r: Option<string>)
    ensures r.Some? ==> Tables(e) == {r.value} && OneTable(e)
    ensures r.None? ==> !OneTable(e)
  {
    var seenTables := Tables(e);
    if |seenTables| != 1 {
      return None;
    }
    var lastTable :| lastTable in seenTables;
    Singleton(seenTables, lastTable);
    return Some(lastTable);
  }

  /** What the loop has made of the conjuncts so far. */
  ghost predicate SortedSoFar(m: FiltersByTable, es: seq<Expr>) {
    && Sorted(m, es)
    && (forall c :: c in es ==> OneTable(c))
    && (forall t :: t in m ==> m[t] != [])
  }

  lemma SortsOneMore(m: FiltersByTable, es: seq<Expr>, i: nat, table: string)
    requires i < |es| && SortedSoFar(m, es[..i]) && Tables(es[i]) == {table} && OneTable(es[i])
    ensures SortedSoFar(Append(m, table, es[i]), es[..i + 1])
  {
    assert es[..i + 1] == es[..i] + [es[i]];
    SortedStep(m, es[..i], es[i], table);
  }

  /** Conjunct `i` is the first that reads no table or several. */
  predicate FirstMixed(es: seq<Expr>, i: int) {
    0 <= i < |es| && !OneTable(es[i]) && forall k :: 0 <= k < i ==> OneTable(es[k])
  }

  lemma FirstOfMixed(m: FiltersByTable, es: seq<Expr>, i: nat)
    requires i < |es| && SortedSoFar(m, es[..i]) && !OneTable(es[i])
    ensures FirstMixed(es, i) && es[i] in es
  {
    forall k | 0 <= k < i ensures OneTable(es[k]) {
      assert es[..i][k] == es[k];
    }
  }

  /** exprToTableFilters; the error carries the conjunct that reads no table or several. */
  method ExprToTableFilters(e: Expr) returns (r: Result<FiltersByTable, Expr>)
    ensures r.Ok? <==> forall c :: c in SplitConjunction(e) ==> OneTable(c)
    ensures r.Err? ==> exists i :: FirstMixed(SplitConjunction(e), i) && r.error == SplitConjunction(e)[i]
    ensures r.Ok? ==> Sorted(r.value, SplitConjunction(e))
    ensures r.Ok? ==> forall t :: t in r.value ==> r.value[t] != []
  {
    var filters: FiltersByTable := map[];
    var split := SplitConjunction(e);
    for i := 0 to |split|
      invariant SortedSoFar(filters, split[..i])
    {
      var table := InspectTables(split[i]);
      if table.None? {
        FirstOfMixed(filters, split, i);
        return Err(split[i]);
      }
      SortsOneMore(filters, split, i, table.value);
      filters := Append(filters, table.value, split[i]);
    }
    assert split[..|split|] == split;
    return Ok(filters);
  }

  // ---------------------------------------------------------------- the lists together are the conjuncts

  /** `order` lists each table of the map once, as some iteration over the map does. */
  ghost predicate Iterates(order: seq<string>, m: FiltersByTable) {
    && (forall t :: t in order <==> t in m)
    && (forall i, j :: 0 <= i < j < |order| ==> order[i] != order[j])
  }

  /** All lists of the map, one after another. */
  function Gather(m: FiltersByTable, order: seq<string>): seq<Expr>
    requires forall t :: t in order ==> t in m
  {
    if order == [] then [] else m[order[0]] + Gather(m, order[1..])
  }

  function GatherFor(es: seq<Expr>, order: seq<string>): seq<Expr> {
    if order == [] then [] else ForTable(es, order[0]) + GatherFor(es, order[1..])
  }

  lemma {:induction false} GatherIsGatherFor(m: FiltersByTable, es: seq<Expr>, order: seq<string>)
    requires Sorted(m, es) && forall t :: t in order ==> t in m
    ensures Gather(m, order) == GatherFor(es, order)
  {
    if order != [] {
      assert ForTable(es, order[0]) == m[order[0]];
      GatherIsGatherFor(m, es, order[1..]);
    }
  }

  lemma {:induction false} GatherOne(es: seq<Expr>, e: Expr, table: string, order: seq<string>)
    requires Tables(e) == {table}
    requires forall i, j :: 0 <= i < j < |order| ==> order[i] != order[j]
    ensures multiset(GatherFor(es + [e], order)) ==
            multiset(GatherFor(es, order)) + (if table in order then multiset{e} else multiset{})
  {
    if order != [] {
      assert (es + [e])[..|es|] == es;
      assert table in Tables(e);
      assert Tables(e) == {order[0]} <==> order[0] == table;
      assert order == [order[0]] + order[1..];
      GatherOne(es, e, table, order[1..]);
    }
  }

  lemma {:induction false} GatherEmpty(order: seq<string>)
    ensures GatherFor([], order) == []
  {
    if order != [] {
      GatherEmpty(order[1..]);
    }
  }

  /** Sorted into lists by table, the expressions are the same, each as often, whatever the order of the tables. */
  lemma {:induction false} GatherIsPermutation(es: seq<Expr>, order: seq<string>)
    requires forall c :: c in es ==> exists t :: t in order && Tables(c) == {t}
    requires forall i, j :: 0 <= i < j < |order| ==> order[i] != order[j]
    ensures multiset(GatherFor(es, order)) == multiset(es)
  {
    if es == [] {
      GatherEmpty(order);
    } else {
      var before, e := es[..|es| - 1], es[|es| - 1];
      assert es == before + [e];
      assert forall c :: c in before ==> c in es;
      GatherIsPermutation(before, order);
      var t :| t in order && Tables(e) == {t};
      GatherOne(before, e, t, order);
    }
  }

  lemma {:induction false} ForTableMember(es: seq<Expr>, t: string, c: Expr)
    ensures c in ForTable(es, t) <==> c in es && Tables(c) == {t}
  {
    if es != [] {
      assert es == es[..|es| - 1] + [es[|es| - 1]];
      ForTableMember(es[..|es| - 1], t, c);
    }
  }

  /** When exprToTableFilters succeeds, its lists are a permutation of the conjuncts, each in the list of its own table. */
  lemma TableFiltersArePermutation(e: Expr, m: FiltersByTable, order: seq<string>)
    requires Sorted(m, SplitConjunction(e)) && Iterates(order, m)
    requires forall c :: c in SplitConjunction(e) ==> OneTable(c)
    ensures multiset(Gather(m, order)) == multiset(SplitConjunction(e))
    ensures forall t, c :: t in m && c in m[t] ==> Tables(c) == {t}
  {
    var split := SplitConjunction(e);
    forall c | c in split
      ensures exists t :: t in order && Tables(c) == {t}
    {
      assert OneTable(c);
      var t :| t in Tables(c);
      Singleton(Tables(c), t);
      ForTableMember(split, t, c);
      assert ForTable(split, t) != [];
      assert t in m;
    }
    GatherIsGatherFor(m, split, order);
    GatherIsPermutation(split, order);
    forall t, c | t in m && c in m[t]
      ensures Tables(c) == {t}
    {
      assert ForTable(split, t) == m[t];
      ForTableMember(split, t, c);
    }
  }

  // ---------------------------------------------------------------- the conjunction means the original

  function TruthOn(lib: Library, e: Expr, row: Row): Option<Truth> {
    match Eval(lib, e, row)
    case Err(_) => None
    case Ok(v) => Some(TruthOf(lib, v))
  }

  /** Every expression of the list is true on the row. */
  predicate AllTrue(lib: Library, es: seq<Expr>, row: Row) {
    forall c :: c in es ==> TruthOn(lib, c, row) == Some(True)
  }

  /** The three-valued AND of a list, which depends on its members only. */
  function AndOfAll(lib: Library, es: seq<Expr>, row: Row): Truth {
    if exists c :: c in es && TruthOn(lib, c, row) == Some(False) then False
    else if exists c :: c in es && TruthOn(lib, c, row) == Some(Unknown) then Unknown
    else True
  }

  /** A predicate is true on a row exactly when each conjunct is, errors and short cuts included. */
  lemma {:induction false} TrueIffConjunctsTrue(lib: Library, e: Expr, row: Row)
    ensures TruthOn(lib, e, row) == Some(True) <==> AllTrue(lib, SplitConjunction(e), row)
  {
    if e.And? {
      TrueIffConjunctsTrue(lib, e.left, row);
      TrueIffConjunctsTrue(lib, e.right, row);
    } else {
      assert e in SplitConjunction(e);
    }
  }

  /** Where every conjunct evaluates, the predicate has the three-valued AND of their truths. */
  lemma {:induction false} TruthIsAndOfConjuncts(lib: Library, e: Expr, row: Row)
    requires forall c :: c in SplitConjunction(e) ==> Eval(lib, c, row).Ok?
    ensures TruthOn(lib, e, row) == Some(AndOfAll(lib, SplitConjunction(e), row))
  {
    if e.And? {
      TruthIsAndOfConjuncts(lib, e.left, row);
      TruthIsAndOfConjuncts(lib, e.right, row);
      AndOrValues(lib, e.left, e.right, row);
    } else {
      assert e in SplitConjunction(e);
    }
  }

  /** The per-table lists together have the truth of the original predicate on every row. */
  lemma TableFiltersMeanOriginal(lib: Library, e: Expr, m: FiltersByTable, order: seq<string>, row: Row)
    requires Sorted(m, SplitConjunction(e)) && Iterates(order, m)
    requires forall c :: c in SplitConjunction(e) ==> OneTable(c)
    ensures TruthOn(lib, e, row) == Some(True) <==> AllTrue(lib, Gather(m, order), row)
    ensures (forall c :: c in SplitConjunction(e) ==> Eval(lib, c, row).Ok?) ==>
              TruthOn(lib, e, row) == Some(AndOfAll(lib, Gather(m, order), row))
  {
    var split, all := SplitConjunction(e), Gather(m, order);
    TableFiltersArePermutation(e, m, order);
    SameTruth(lib, split, all, row);
    TrueIffConjunctsTrue(lib, e, row);
    if forall c :: c in split ==> Eval(lib, c, row).Ok? {
      TruthIsAndOfConjuncts(lib, e, row);
    }
  }

  lemma SameMembers(a: seq<Expr>, b: seq<Expr>)
    requires multiset(a) == multiset(b)
    ensures forall c :: c in a <==> c in b
  {
    forall c
      ensures c in a <==> c in b
    {
      assert c in multiset(a) <==> c in multiset(b);
    }
  }

  lemma SameTruth(lib: Library, a: seq<Expr>, b: seq<Expr>, row: Row)
    requires multiset(a) == multiset(b)
    ensures AllTrue(lib, a, row) <==> AllTrue(lib, b, row)
    ensures AndOfAll(lib, a, row) == AndOfAll(lib, b, row)
  {
    SameMembers(a, b);
  }

  // ---------------------------------------------------------------- handled filters

  /** The expressions of `all` that are not in `handled`, in order. */
  function Subtract(all: seq<Expr>, handled: seq<Expr>): seq<Expr> {
    if all == [] then []
    else
      var before := Subtract(all[..|all| - 1], handled);
      if all[|all| - 1] in handled then before else before + [all[|all| - 1]]
  }

  function NotIn(handled: seq<Expr>): Expr -> bool {
    e => e !in handled
  }

  lemma SubtractMore(all: seq<Expr>, handled: seq<Expr>, e: Expr)
    ensures Subtract(all + [e], handled) == if NotIn(handled)(e) then Subtract(all, handled) + [e] else Subtract(all, handled)
  {
    assert (all + [e])[..|all|] == all;
  }

  /** What stays is picked out of the list: in its order, and as often as it stands there. */
  lemma {:induction false} SubtractPicks(all: seq<Expr>, handled: seq<Expr>)
    ensures Picked(all, NotIn(handled), Subtract(all, handled))
  {
    if all == [] {
      PicksNone(NotIn(handled));
    } else {
      var front, e := all[..|all| - 1], all[|all| - 1];
      assert all == front + [e];
      SubtractPicks(front, handled);
      SubtractMore(front, handled, e);
      PicksMore(front, NotIn(handled), Subtract(front, handled), e);
    }
  }

  /** subtractExprSet: what stays is exactly what is not subtracted, in order and as often. */
  method SubtractExprSet(all: seq<Expr>, toSubtract: seq<Expr>) returns (remainder: seq<Expr>)
    ensures remainder == Subtract(all, toSubtract)
  {
    remainder := [];
    for i := 0 to |all|
      invariant remainder == Subtract(all[..i], toSubtract)
    {
      var found := false;
      for j := 0 to |toSubtract|
        invariant !found && all[i] !in toSubtract[..j]
      {
        if all[i] == toSubtract[j] {
          found := true;
          break;
        }
      }
      assert toSubtract[..|toSubtract|] == toSubtract;
      assert all[..i + 1][..i] == all[..i];
      if !found {
        remainder := remainder + [all[i]];
      }
    }
    assert all[..|all|] == all;
  }

  lemma {:induction false} SubtractConcat(a: seq<Expr>, b: seq<Expr>, handled: seq<Expr>)
    ensures Subtract(a + b, handled) == Subtract(a, handled) + Subtract(b, handled)
  {
    if b == [] {
      assert a + b == a;
    } else {
      assert (a + b)[..|a + b| - 1] == a + b[..|b| - 1];
      SubtractConcat(a, b[..|b| - 1], handled);
    }
  }

  lemma {:induction false} SubtractCounts(all: seq<Expr>, handled: seq<Expr>, c: Expr)
    ensures multiset(Subtract(all, handled))[c] == if c in handled then 0 else multiset(all)[c]
  {
    if all != [] {
      assert all == all[..|all| - 1] + [all[|all| - 1]];
      SubtractCounts(all[..|all| - 1], handled, c);
    }
  }

  lemma {:induction false} GatherAppend(m: FiltersByTable, order: seq<string>, t: string)
    requires (forall x :: x in order ==> x in m) && t in m
    ensures Gather(m, order + [t]) == Gather(m, order) + m[t]
  {
    if order == [] {
      assert [t][1..] == [];
    } else {
      assert (order + [t])[1..] == order[1..] + [t];
      GatherAppend(m, order[1..], t);
    }
  }

  /** The filters of a query and those already applied elsewhere in its plan. */
  class FilterSet {
    const filtersByTable: FiltersByTable
    var handledFilters: seq<Expr>

    constructor (filtersByTable: FiltersByTable)
      ensures this.filtersByTable == filtersByTable && handledFilters == []
    {
      this.filtersByTable := filtersByTable;
      handledFilters := [];
    }

    method MarkFiltersHandled(exprs: seq<Expr>)
      modifies this
      ensures handledFilters == old(handledFilters) + exprs
    {
      handledFilters := handledFilters + exprs;
    }

    method AvailableFiltersForTable(table: string) returns (available: seq<Expr>)
      ensures available == if table in filtersByTable then Subtract(filtersByTable[table], handledFilters) else []
    {
      if table !in filtersByTable {
        return [];
      }
      available := SubtractExprSet(filtersByTable[table], handledFilters);
    }

    /** availableFilters, over the map in some order. */
    method AvailableFilters() returns (available: seq<Expr>)
      ensures exists order :: Iterates(order, filtersByTable) && available == Subtract(Gather(filtersByTable, order), handledFilters)
    {
      available := [];
      ghost var order: seq<string> := [];
      var rest := filtersByTable.Keys;
      while rest != {}
        invariant rest <= filtersByTable.Keys
        invariant forall t :: t in order <==> t in filtersByTable && t !in rest
        invariant forall i, j :: 0 <= i < j < |order| ==> order[i] != order[j]
        invariant available == Subtract(Gather(filtersByTable, order), handledFilters)
        decreases rest
      {
        var t :| t in rest;
        var es := SubtractExprSet(filtersByTable[t], handledFilters);
        available := available + es;
        GatherAppend(filtersByTable, order, t);
        SubtractConcat(Gather(filtersByTable, order), filtersByTable[t], handledFilters);
        rest := rest - {t};
        order := order + [t];
      }
      assert Iterates(order, filtersByTable);
    }
  }

  /**
   With filters marked handled, what is still available and what was handled together imply the
   original predicate, and the original implies everything available: nothing is lost or added.
   */
  lemma AvailableAndHandledImplyOriginal(lib: Library, e: Expr, m: FiltersByTable, order: seq<string>, handled: seq<Expr>, row: Row)
    requires Sorted(m, SplitConjunction(e)) && Iterates(order, m)
    requires forall c :: c in SplitConjunction(e) ==> OneTable(c)
    ensures var available := Subtract(Gather(m, order), handled);
            && (AllTrue(lib, available, row) && AllTrue(lib, handled, row) ==> TruthOn(lib, e, row) == Some(True))
            && (TruthOn(lib, e, row) == Some(True) ==> AllTrue(lib, available, row))
            && forall c :: c in available ==> c in SplitConjunction(e) && c !in handled
  {
    var all := Gather(m, order);
    var available := Subtract(all, handled);
    forall c
      ensures c in available <==> c in all && c !in handled
    {
      SubtractCounts(all, handled, c);
      assert c in multiset(available) <==> multiset(available)[c] > 0;
      assert c in multiset(all) <==> multiset(all)[c] > 0;
    }
    TableFiltersMeanOriginal(lib, e, m, order, row);
    TableFiltersArePermutation(e, m, order);
    SameMembers(SplitConjunction(e), all);
  }
}
