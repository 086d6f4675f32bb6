/** What a read of a table yields, stated without partitions, iterators or positions, and what projections mean. */
module TableReads {
  import opened Wrappers
  import opened Expressions
  import opened IndexLookups
  import opened TableScan
  import opened Picking

  /** Every row of the table, in scan order. */
  function FullScan(t: Table, keys: seq<string>): (rows: seq<Row>)
    requires ValidTable(t)
    ensures Fits(t.columns, rows)
  {
    if keys == [] then []
    else (if keys[0] in t.partitions then t.partitions[keys[0]] else []) + FullScan(t, keys[1..])
  }

  /** Whether the lookup holds of a row. */
  function Wanted(lib: Library, lookup: Option<Lookup>, row: Row): Result<bool, Error>
    requires lookup.Some? ==> WellFormed(lookup.value)
  {
    if lookup.None? then Ok(true)
    else
      match ResultOf(lib, lookup.value, row)
      case Err(x) => Err(x)
      case Ok(v) => Ok(v == Bool(true))
  }

  /** Whether the lookup and all filters hold of a row. */
  function Chosen(lib: Library, t: Table, row: Row): Result<bool, Error>
    requires ValidTable(t)
  {
    match Wanted(lib, t.lookup, row)
    case Err(x) => Err(x)
    case Ok(b) => if b then Passes(lib, t.filters, row) else Ok(false)
  }

  /** The chosen rows, projected; none if one of the rows fails to evaluate. */
  function Pick(lib: Library, t: Table, rows: seq<Row>): Option<seq<Row>>
    requires ValidTable(t) && Fits(t.columns, rows)
  {
    if rows == [] then Some([])
    else Join(Pick(lib, t, rows[..|rows| - 1]), PickOne(lib, t, rows[|rows| - 1]))
  }

  function PickOne(lib: Library, t: Table, row: Row): Option<seq<Row>>
    requires ValidTable(t) && Below(t.columns, |row|)
  {
    match Chosen(lib, t, row)
    case Err(_) => None
    case Ok(b) => Some(if b then [Project(t.columns, row)] else [])
  }

  function FilterOne(lib: Library, filters: seq<Expr>, columns: seq<nat>, row: Row): Option<seq<Row>>
    requires Below(columns, |row|)
  {
    match Passes(lib, filters, row)
    case Err(_) => None
    case Ok(b) => Some(if b then [Project(columns, row)] else [])
  }

  function Join(a: Option<seq<Row>>, b: Option<seq<Row>>): Option<seq<Row>> {
    if a.Some? && b.Some? then Some(a.value + b.value) else None
  }

  /** The rows of an iteration that meets no error. */
  function Complete(s: Stream): Option<seq<Row>> {
    if s.err.Some? then None else Some(s.rows)
  }

  lemma JoinEmpty(a: Option<seq<Row>>)
    ensures Join(a, Some([])) == a == Join(Some([]), a)
  {
    assert a.Some? ==> a.value + [] == a.value == [] + a.value;
  }

  lemma JoinAssociates(a: Option<seq<Row>>, b: Option<seq<Row>>, c: Option<seq<Row>>)
    ensures Join(Join(a, b), c) == Join(a, Join(b, c))
  {
    if a.Some? && b.Some? && c.Some? {
      assert a.value + b.value + c.value == a.value + (b.value + c.value);
    }
  }

  lemma FitsConcat(columns: seq<nat>, a: seq<Row>, b: seq<Row>)
    requires Fits(columns, a) && Fits(columns, b)
    ensures Fits(columns, a + b)
  {
  }

  lemma {:induction false} PickConcat(lib: Library, t: Table, a: seq<Row>, b: seq<Row>)
    requires ValidTable(t) && Fits(t.columns, a) && Fits(t.columns, b)
    ensures Fits(t.columns, a + b) && Pick(lib, t, a + b) == Join(Pick(lib, t, a), Pick(lib, t, b))
    decreases |b|
  {
    FitsConcat(t.columns, a, b);
    if b == [] {
      assert a + b == a;
      JoinEmpty(Pick(lib, t, a));
    } else {
      var n := |b| - 1;
      PickConcat(lib, t, a, b[..n]);
      assert (a + b)[..|a + b| - 1] == a + b[..n] && (a + b)[|a + b| - 1] == b[n];
      assert Pick(lib, t, a + b) == Join(Pick(lib, t, a + b[..n]), PickOne(lib, t, b[n]));
      JoinAssociates(Pick(lib, t, a), Pick(lib, t, b[..n]), PickOne(lib, t, b[n]));
    }
  }

  ghost predicate AllChosenOk(lib: Library, t: Table, rows: seq<Row>)
    requires ValidTable(t)
  {
    forall row :: row in rows ==> Chosen(lib, t, row).Ok?
  }

  lemma {:induction false} PickSucceedsIff(lib: Library, t: Table, rows: seq<Row>)
    requires ValidTable(t) && Fits(t.columns, rows)
    ensures Pick(lib, t, rows).Some? <==> AllChosenOk(lib, t, rows)
    decreases |rows|
  {
    if rows != [] {
      var init, last := rows[..|rows| - 1], rows[|rows| - 1];
      PickSucceedsIff(lib, t, init);
      assert rows == init + [last];
      assert forall row :: row in rows <==> row in init || row == last;
    }
  }

  lemma FilteredHead(lib: Library, filters: seq<Expr>, columns: seq<nat>, a: seq<Row>)
    requires Fits(columns, a) && a != []
    ensures Complete(Filtered(lib, filters, columns, a)) ==
            Join(FilterOne(lib, filters, columns, a[0]), Complete(Filtered(lib, filters, columns, a[1..])))
  {
    JoinEmpty(Complete(Filtered(lib, filters, columns, a[1..])));
  }

  lemma {:induction false} FilteredSnoc(lib: Library, filters: seq<Expr>, columns: seq<nat>, a: seq<Row>, x: Row)
    requires Fits(columns, a) && Below(columns, |x|)
    ensures Complete(Filtered(lib, filters, columns, a + [x])) ==
            Join(Complete(Filtered(lib, filters, columns, a)), FilterOne(lib, filters, columns, x))
    decreases |a|
  {
    FilteredHead(lib, filters, columns, a + [x]);
    if a == [] {
      JoinEmpty(FilterOne(lib, filters, columns, x));
    } else {
      FilteredHead(lib, filters, columns, a);
      FilteredSnoc(lib, filters, columns, a[1..], x);
      assert (a + [x])[1..] == a[1..] + [x];
      JoinAssociates(FilterOne(lib, filters, columns, a[0]), Complete(Filtered(lib, filters, columns, a[1..])),
                     FilterOne(lib, filters, columns, x));
    }
  }

  lemma {:induction false} RowsAtSnoc(rows: seq<Row>, ps: seq<nat>)
    requires rows != [] && Below(ps, |rows| - 1)
    ensures RowsAt(rows, ps) == RowsAt(rows[..|rows| - 1], ps)
    ensures RowsAt(rows, ps + [|rows| - 1]) == RowsAt(rows, ps) + [rows[|rows| - 1]]
  {
    if ps != [] {
      RowsAtSnoc(rows, ps[1..]);
      assert (ps + [|rows| - 1])[1..] == ps[1..] + [|rows| - 1];
    }
  }

  /** Selecting goes row by row, with or without a lookup. */
  lemma SelectedStep(lib: Library, lookup: Option<Lookup>, rows: seq<Row>)
    requires (lookup.Some? ==> WellFormed(lookup.value)) && rows != []
    ensures Selected(lib, lookup, rows) ==
            match Both(Selected(lib, lookup, rows[..|rows| - 1]), Wanted(lib, lookup, rows[|rows| - 1]))
            case Err(x) => Err(x)
            case Ok((s, b)) => Ok(if b then s + [rows[|rows| - 1]] else s)
  {
    var n := |rows| - 1;
    if lookup.None? {
      assert rows == rows[..n] + [rows[n]];
    } else {
      LookupBoolean(lib, lookup.value, rows[n]);
      var ps := Positions(lib, ExprOf(lookup.value), rows[..n]);
      if ps.Ok? {
        RowsAtSnoc(rows, ps.value);
      }
    }
  }

  lemma {:induction false} PartitionReads(lib: Library, t: Table, rows: seq<Row>)
    requires ValidTable(t) && Fits(t.columns, rows)
    ensures Complete(PartitionStream(lib, t, rows)) == Pick(lib, t, rows)
    decreases |rows|
  {
    if rows != [] {
      var n := |rows| - 1;
      var init, last := rows[..n], rows[n];
      PartitionReads(lib, t, init);
      SelectedStep(lib, t.lookup, rows);
      var s := Selected(lib, t.lookup, init);
      if s.Ok? && Wanted(lib, t.lookup, last) == Ok(true) {
        FilteredSnoc(lib, t.filters, t.columns, s.value, last);
        assert PickOne(lib, t, last) == FilterOne(lib, t.filters, t.columns, last);
      } else if s.Ok? && Wanted(lib, t.lookup, last) == Ok(false) {
        JoinEmpty(Pick(lib, t, init));
        assert PickOne(lib, t, last) == Some([]);
      }
    }
  }

  lemma {:induction false} KeysRead(lib: Library, t: Table, keys: seq<string>)
    requires ValidTable(t)
    ensures Complete(KeysStream(lib, t, LiveKeys(t, keys))) == Pick(lib, t, FullScan(t, keys))
  {
    if keys != [] {
      KeysRead(lib, t, keys[1..]);
      var rest := FullScan(t, keys[1..]);
      if keys[0] in t.partitions && t.partitions[keys[0]] != [] {
        var rows := t.partitions[keys[0]];
        PartitionReads(lib, t, rows);
        PickConcat(lib, t, rows, rest);
        var live := LiveKeys(t, keys[1..]);
        assert LiveKeys(t, keys) == [keys[0]] + live && ([keys[0]] + live)[1..] == live;
      } else {
        assert [] + rest == rest;
      }
    }
  }

  // ---------------------------------------------------------------- rows and filters

  /** The filter evaluates to a true value. */
  predicate FilterHolds(lib: Library, f: Expr, row: Row) {
    Eval(lib, f, row).Ok? && IsTrue(lib, Eval(lib, f, row).value)
  }

  /** Filter `i` is the first that does not hold. */
  predicate FirstNotHeld(lib: Library, filters: seq<Expr>, row: Row, i: nat) {
    i < |filters| && !FilterHolds(lib, filters[i], row) && forall k :: 0 <= k < i ==> FilterHolds(lib, filters[k], row)
  }

  /** Either all filters hold or one is the first that does not. */
  lemma {:induction false} PassesCases(lib: Library, filters: seq<Expr>, row: Row)
    ensures (forall i :: 0 <= i < |filters| ==> FilterHolds(lib, filters[i], row)) ==> Passes(lib, filters, row) == Ok(true)
    ensures forall i :: 0 <= i < |filters| && FirstNotHeld(lib, filters, row, i) ==>
              Passes(lib, filters, row) ==
              if Eval(lib, filters[i], row).Err? then Err(Eval(lib, filters[i], row).error) else Ok(false)
    ensures (forall i :: 0 <= i < |filters| ==> FilterHolds(lib, filters[i], row)) ||
            exists i :: 0 <= i < |filters| && FirstNotHeld(lib, filters, row, i)
  {
    if filters != [] {
      var first, rest := filters[0], filters[1..];
      PassesCases(lib, rest, row);
      assert filters == [first] + rest;
      if Eval(lib, first, row).Ok? {
        TruthIff(lib, Eval(lib, first, row).value);
      }
      if !FilterHolds(lib, first, row) {
        assert FirstNotHeld(lib, filters, row, 0);
      } else {
        forall i | 0 <= i < |filters| && FirstNotHeld(lib, filters, row, i)
          ensures FirstNotHeld(lib, rest, row, i - 1)
        {
          assert forall k :: 0 <= k < i - 1 ==> rest[k] == filters[k + 1];
        }
        if i :| 0 <= i < |rest| && FirstNotHeld(lib, rest, row, i) {
          assert forall k :: 0 < k <= i ==> filters[k] == rest[k - 1];
          assert FirstNotHeld(lib, filters, row, i + 1);
        }
      }
    }
  }

  /** A filter evaluates on the row to something other than true, and every filter before it holds. */
  predicate Rejects(lib: Library, filters: seq<Expr>, row: Row, i: nat) {
    FirstNotHeld(lib, filters, row, i) && Eval(lib, filters[i], row).Ok?
  }

  /** A filter fails on the row with this error, and every filter before it holds. */
  predicate FailsWith(lib: Library, filters: seq<Expr>, row: Row, i: nat, x: Error) {
    FirstNotHeld(lib, filters, row, i) && Eval(lib, filters[i], row) == Err(x)
  }

  /**
   A row passes exactly when every filter evaluates to a true value, is dropped exactly when a filter
   evaluates to something else and all before it hold, and fails exactly with the error of a filter
   before which all hold.
   */
  lemma PassesIff(lib: Library, filters: seq<Expr>, row: Row)
    ensures Passes(lib, filters, row) == Ok(true) <==> forall f :: f in filters ==> FilterHolds(lib, f, row)
    ensures Passes(lib, filters, row) == Ok(false) <==> exists i :: 0 <= i < |filters| && Rejects(lib, filters, row, i)
    ensures forall x :: Passes(lib, filters, row) == Err(x) <==> exists i :: 0 <= i < |filters| && FailsWith(lib, filters, row, i, x)
  {
    PassesCases(lib, filters, row);
    if i :| 0 <= i < |filters| && FirstNotHeld(lib, filters, row, i) {
      assert filters[i] in filters;
      OneFirst(lib, filters, row, i);
      var r := Eval(lib, filters[i], row);
      if r.Ok? {
        assert Rejects(lib, filters, row, i);
      } else {
        assert FailsWith(lib, filters, row, i, r.error);
      }
    }
  }

  lemma OneFirst(lib: Library, filters: seq<Expr>, row: Row, i: nat)
    requires FirstNotHeld(lib, filters, row, i)
    ensures forall j :: 0 <= j < |filters| && FirstNotHeld(lib, filters, row, j) ==> j == i
  {
  }

  /** The lookup, if there is one, is true of the row. */
  predicate LookedUp(lib: Library, lookup: Option<Lookup>, row: Row)
    requires lookup.Some? ==> WellFormed(lookup.value)
  {
    lookup.Some? ==> ResultOf(lib, lookup.value, row) == YES
  }

  /** The lookup and every filter hold of the row. */
  predicate Meant(lib: Library, t: Table, row: Row)
    requires ValidTable(t)
  {
    LookedUp(lib, t.lookup, row) && forall f :: f in t.filters ==> FilterHolds(lib, f, row)
  }

  /** The lookup fails on the row, or holds and a filter before which all hold fails. */
  ghost predicate Broken(lib: Library, t: Table, row: Row)
    requires ValidTable(t)
  {
    || (t.lookup.Some? && ResultOf(lib, t.lookup.value, row).Err?)
    || (LookedUp(lib, t.lookup, row) && exists i, x :: 0 <= i < |t.filters| && FailsWith(lib, t.filters, row, i, x))
  }

  lemma ChosenIff(lib: Library, t: Table, row: Row)
    requires ValidTable(t)
    ensures Chosen(lib, t, row).Err? <==> Broken(lib, t, row)
    ensures Chosen(lib, t, row) == Ok(true) <==> Meant(lib, t, row)
  {
    PassesIff(lib, t.filters, row);
    if Passes(lib, t.filters, row).Err? {
      var x := Passes(lib, t.filters, row).error;
      assert Passes(lib, t.filters, row) == Err(x);
    }
  }

  /** Which rows the lookup and the filters mean. */
  ghost function Means(lib: Library, t: Table): Row -> bool
    requires ValidTable(t)
  {
    row => Meant(lib, t, row)
  }

  predicate ProjectsTo(columns: seq<nat>, row: Row, out: Row) {
    Below(columns, |row|) && out == Project(columns, row)
  }

  /** The rows are the projections of these ones, in order. */
  predicate Projects(columns: seq<nat>, chosen: seq<Row>, rows: seq<Row>) {
    |rows| == |chosen| && forall i :: 0 <= i < |rows| ==> ProjectsTo(columns, chosen[i], rows[i])
  }

  /** The rows of the scan that `keep` marks, each as often and in the order it has them, projected. */
  ghost predicate Yields(keep: Row -> bool, columns: seq<nat>, scan: seq<Row>, rows: seq<Row>) {
    exists chosen :: Picked(scan, keep, chosen) && Projects(columns, chosen, rows)
  }

  lemma YieldsMore(keep: Row -> bool, columns: seq<nat>, scan: seq<Row>, rows: seq<Row>, row: Row, out: Row)
    requires Yields(keep, columns, scan, rows) && ProjectsTo(columns, row, out)
    ensures Yields(keep, columns, scan + [row], if keep(row) then rows + [out] else rows)
  {
    var chosen :| Picked(scan, keep, chosen) && Projects(columns, chosen, rows);
    PicksMore(scan, keep, chosen, row);
    ProjectsMore(columns, chosen, rows, row, out);
  }

  lemma ProjectsMore(columns: seq<nat>, chosen: seq<Row>, rows: seq<Row>, row: Row, out: Row)
    requires Projects(columns, chosen, rows) && ProjectsTo(columns, row, out)
    ensures Projects(columns, chosen + [row], rows + [out])
  {
  }

  /** What the last row adds. */
  lemma PickStep(lib: Library, t: Table, init: seq<Row>, last: Row)
    requires ValidTable(t) && Fits(t.columns, init + [last]) && Pick(lib, t, init + [last]).Some?
    ensures Fits(t.columns, init) && Below(t.columns, |last|) && Pick(lib, t, init).Some?
    ensures Pick(lib, t, init + [last]).value ==
            if Means(lib, t)(last) then Pick(lib, t, init).value + [Project(t.columns, last)] else Pick(lib, t, init).value
  {
    var scan := init + [last];
    assert scan[..|scan| - 1] == init && scan[|scan| - 1] == last;
    assert last in scan && forall r :: r in init ==> r in scan;
    ChosenIff(lib, t, last);
    if Chosen(lib, t, last) == Ok(false) {
      JoinEmpty(Pick(lib, t, init));
    }
  }

  lemma {:induction false} PickYields(lib: Library, t: Table, scan: seq<Row>)
    requires ValidTable(t) && Fits(t.columns, scan) && Pick(lib, t, scan).Some?
    ensures Yields(Means(lib, t), t.columns, scan, Pick(lib, t, scan).value)
    decreases |scan|
  {
    if scan == [] {
      PicksNone(Means(lib, t));
      assert Projects(t.columns, [], []);
    } else {
      var init, last := scan[..|scan| - 1], scan[|scan| - 1];
      assert scan == init + [last];
      PickStep(lib, t, init, last);
      PickYields(lib, t, init);
      YieldsMore(Means(lib, t), t.columns, init, Pick(lib, t, init).value, last, Project(t.columns, last));
    }
  }

  /**
   A read ends in an error exactly when the lookup or a filter fails on a row it is applied to.
   Otherwise it yields the projections of exactly those rows of a full scan of which the lookup and
   every filter are true, each as often and in the order in which the scan meets them.
   */
  lemma ReadIsFilteredScan(lib: Library, t: Table)
    requires ValidTable(t)
    ensures var read, scan := TableStream(lib, t), FullScan(t, t.keys);
            && Complete(read) == Pick(lib, t, scan)
            && (read.err.Some? <==> exists row :: row in scan && Broken(lib, t, row))
            && (read.err.None? ==> Yields(Means(lib, t), t.columns, scan, read.rows))
  {
    KeysRead(lib, t, t.keys);
    var scan := FullScan(t, t.keys);
    PickSucceedsIff(lib, t, scan);
    forall row | row in scan
      ensures Chosen(lib, t, row).Err? <==> Broken(lib, t, row)
    {
      ChosenIff(lib, t, row);
    }
    if Pick(lib, t, scan).Some? {
      PickYields(lib, t, scan);
    }
  }

  /** A full scan goes through the keys in order, and through the rows of each partition in order. */
  lemma {:induction false} FullScanIs(t: Table, keys: seq<string>, key: string)
    requires ValidTable(t)
    ensures FullScan(t, keys + [key]) == FullScan(t, keys) + if key in t.partitions then t.partitions[key] else []
  {
    var rows := if key in t.partitions then t.partitions[key] else [];
    if keys == [] {
      assert keys + [key] == [key] && [key][1..] == keys;
      assert FullScan(t, [key]) == rows + FullScan(t, []);
    } else {
      FullScanIs(t, keys[1..], key);
      assert (keys + [key])[1..] == keys[1..] + [key];
      var first := if keys[0] in t.partitions then t.partitions[keys[0]] else [];
      assert first + (FullScan(t, keys[1..]) + rows) == first + FullScan(t, keys[1..]) + rows;
    }
  }

  // ---------------------------------------------------------------- reads that fail

  /** The lookup fails on row `i` with this error and on no row before it. */
  predicate LookupFails(lib: Library, t: Table, rows: seq<Row>, i: nat, x: Error)
    requires ValidTable(t) && i < |rows|
  {
    && t.lookup.Some? && ResultOf(lib, t.lookup.value, rows[i]) == Err(x)
    && LookupEvaluates(lib, t, rows, i)
  }

  predicate LookupEvaluates(lib: Library, t: Table, rows: seq<Row>, n: nat)
    requires ValidTable(t) && n <= |rows|
  {
    t.lookup.Some? ==> forall k :: 0 <= k < n ==> ResultOf(lib, t.lookup.value, rows[k]).Ok?
  }

  /** The lookup is true of row `i`, a filter fails on it with this error, and no row before it fails. */
  predicate FilterFails(lib: Library, t: Table, rows: seq<Row>, i: nat, x: Error)
    requires ValidTable(t) && i < |rows| && Fits(t.columns, rows)
  {
    && LookedUp(lib, t.lookup, rows[i]) && Passes(lib, t.filters, rows[i]) == Err(x)
    && Pick(lib, t, rows[..i]).Some?
  }

  lemma {:induction false} FilteredMore(lib: Library, filters: seq<Expr>, columns: seq<nat>, a: seq<Row>, x: Row)
    requires Fits(columns, a) && Below(columns, |x|)
    ensures var before := Filtered(lib, filters, columns, a);
            Filtered(lib, filters, columns, a + [x]) ==
            if before.err.Some? then before
            else
              match Passes(lib, filters, x)
              case Err(e) => Stream(before.rows, Some(e))
              case Ok(b) => Stream(before.rows + (if b then [Project(columns, x)] else []), None)
  {
    if a == [] {
      assert (a + [x])[1..] == [];
    } else {
      FilteredMore(lib, filters, columns, a[1..], x);
      assert (a + [x])[1..] == a[1..] + [x];
    }
  }

  /** Every row of the partition has its lookup evaluated before the first row comes out. */
  lemma {:induction false} SelectedIff(lib: Library, t: Table, rows: seq<Row>)
    requires ValidTable(t)
    ensures Selected(lib, t.lookup, rows).Ok? <==> LookupEvaluates(lib, t, rows, |rows|)
    ensures Selected(lib, t.lookup, rows).Err? ==>
              exists i :: 0 <= i < |rows| && LookupFails(lib, t, rows, i, Selected(lib, t.lookup, rows).error)
    decreases |rows|
  {
    if rows != [] {
      var n := |rows| - 1;
      SelectedIff(lib, t, rows[..n]);
      SelectedStep(lib, t.lookup, rows);
      var s := Selected(lib, t.lookup, rows[..n]);
      assert forall k :: 0 <= k < n ==> rows[..n][k] == rows[k];
      if s.Err? {
        var i :| 0 <= i < n && LookupFails(lib, t, rows[..n], i, s.error);
        assert LookupFails(lib, t, rows, i, s.error);
      } else if Selected(lib, t.lookup, rows).Err? {
        assert LookupFails(lib, t, rows, n, Selected(lib, t.lookup, rows).error);
      }
    }
  }

  /** A partition that fails yields nothing where the lookup does, and else the chosen rows before the one that fails. */
  ghost predicate PartitionFails(lib: Library, t: Table, rows: seq<Row>, s: Stream)
    requires ValidTable(t) && Fits(t.columns, rows) && s.err.Some?
  {
    || (s.rows == [] && exists i :: 0 <= i < |rows| && LookupFails(lib, t, rows, i, s.err.value))
    || (LookupEvaluates(lib, t, rows, |rows|) && exists i :: 0 <= i < |rows| && FilterFailsAfter(lib, t, rows, i, s))
  }

  predicate FilterFailsAfter(lib: Library, t: Table, rows: seq<Row>, i: nat, s: Stream)
    requires ValidTable(t) && i < |rows| && Fits(t.columns, rows) && s.err.Some?
  {
    FilterFails(lib, t, rows, i, s.err.value) && Pick(lib, t, rows[..i]) == Some(s.rows)
  }

  lemma {:induction false} PartitionFailsSo(lib: Library, t: Table, rows: seq<Row>)
    requires ValidTable(t) && Fits(t.columns, rows) && PartitionStream(lib, t, rows).err.Some?
    ensures PartitionFails(lib, t, rows, PartitionStream(lib, t, rows))
    decreases |rows|
  {
    SelectedIff(lib, t, rows);
    if Selected(lib, t.lookup, rows).Ok? {
      var n := |rows| - 1;
      var init, last := rows[..n], rows[n];
      SelectedStep(lib, t.lookup, rows);
      var s := Selected(lib, t.lookup, init).value;
      assert Fits(t.columns, s);
      FilteredMore(lib, t.filters, t.columns, s, last);
      if PartitionStream(lib, t, init).err.Some? {
        PartitionFailsSo(lib, t, init);
        FailsEarlier(lib, t, rows);
      } else {
        PartitionReads(lib, t, init);
        assert FilterFailsAfter(lib, t, rows, n, PartitionStream(lib, t, rows));
      }
    }
  }

  lemma FailsEarlier(lib: Library, t: Table, rows: seq<Row>)
    requires ValidTable(t) && Fits(t.columns, rows) && rows != [] && LookupEvaluates(lib, t, rows, |rows|)
    requires var s := PartitionStream(lib, t, rows[..|rows| - 1]);
             s.err.Some? && s == PartitionStream(lib, t, rows) && PartitionFails(lib, t, rows[..|rows| - 1], s)
    ensures PartitionFails(lib, t, rows, PartitionStream(lib, t, rows))
  {
    var n := |rows| - 1;
    var s := PartitionStream(lib, t, rows);
    assert forall k :: 0 <= k < n ==> rows[..n][k] == rows[k];
    var i :| 0 <= i < n && FilterFailsAfter(lib, t, rows[..n], i, s);
    assert rows[..n][..i] == rows[..i];
    assert FilterFailsAfter(lib, t, rows, i, s);
  }

  /** The read fails in the partition of key `i`, after the chosen rows `before` of the earlier ones. */
  ghost predicate FailsIn(lib: Library, t: Table, keys: seq<string>, i: nat, before: seq<Row>, s: Stream)
    requires ValidTable(t) && i < |keys|
  {
    && keys[i] in t.partitions && Pick(lib, t, FullScan(t, keys[..i])) == Some(before)
    && before <= s.rows && s.err.Some?
    && PartitionFails(lib, t, t.partitions[keys[i]], Stream(s.rows[|before|..], s.err))
  }

  lemma FailsInFirst(lib: Library, t: Table, keys: seq<string>, s: Stream)
    requires ValidTable(t) && keys != [] && keys[0] in t.partitions
    requires s.err.Some? && PartitionFails(lib, t, t.partitions[keys[0]], s)
    ensures FailsIn(lib, t, keys, 0, [], s)
  {
    assert keys[..0] == [];
  }

  lemma FailsInLater(lib: Library, t: Table, keys: seq<string>, i: nat, before: seq<Row>, s: Stream, first: seq<Row>)
    requires ValidTable(t) && keys != [] && i < |keys[1..]| && FailsIn(lib, t, keys[1..], i, before, s)
    requires Pick(lib, t, if keys[0] in t.partitions then t.partitions[keys[0]] else []) == Some(first)
    ensures FailsIn(lib, t, keys, i + 1, first + before, Stream(first + s.rows, s.err))
  {
    PickFirstKey(lib, t, keys, i, first, before);
    assert (first + s.rows)[|first + before|..] == s.rows[|before|..];
  }

  lemma PickFirstKey(lib: Library, t: Table, keys: seq<string>, i: nat, first: seq<Row>, before: seq<Row>)
    requires ValidTable(t) && keys != [] && i < |keys[1..]|
    requires Pick(lib, t, if keys[0] in t.partitions then t.partitions[keys[0]] else []) == Some(first)
    requires Pick(lib, t, FullScan(t, keys[1..][..i])) == Some(before)
    ensures Pick(lib, t, FullScan(t, keys[..i + 1])) == Some(first + before)
  {
    var rows := if keys[0] in t.partitions then t.partitions[keys[0]] else [];
    assert keys[..i + 1][0] == keys[0] && keys[..i + 1][1..] == keys[1..][..i];
    PickConcat(lib, t, rows, FullScan(t, keys[1..][..i]));
  }

  predicate Live(t: Table, key: string) {
    key in t.partitions && t.partitions[key] != []
  }

  /** What the first key contributes to the read. */
  lemma FirstKeyStream(lib: Library, t: Table, keys: seq<string>)
    requires ValidTable(t) && keys != []
    ensures var later := KeysStream(lib, t, LiveKeys(t, keys[1..]));
            KeysStream(lib, t, LiveKeys(t, keys)) ==
            if Live(t, keys[0]) then Append(PartitionStream(lib, t, t.partitions[keys[0]]), later) else later
  {
    if Live(t, keys[0]) {
      var live := LiveKeys(t, keys[1..]);
      assert ([keys[0]] + live)[1..] == live;
    }
  }

  /** Where the first key yields all its rows, the read fails after them. */
  lemma FailsAfterFirst(lib: Library, t: Table, keys: seq<string>, i: nat, before: seq<Row>, later: Stream)
    requires ValidTable(t) && keys != [] && i < |keys[1..]| && FailsIn(lib, t, keys[1..], i, before, later)
    requires Live(t, keys[0]) ==> PartitionStream(lib, t, t.partitions[keys[0]]).err.None?
    ensures var first := if Live(t, keys[0]) then PartitionStream(lib, t, t.partitions[keys[0]]).rows else [];
            FailsIn(lib, t, keys, i + 1, first + before, Stream(first + later.rows, later.err))
  {
    if Live(t, keys[0]) {
      PartitionReads(lib, t, t.partitions[keys[0]]);
      FailsInLater(lib, t, keys, i, before, later, PartitionStream(lib, t, t.partitions[keys[0]]).rows);
    } else {
      FailsInLater(lib, t, keys, i, before, later, []);
    }
  }

  lemma {:induction false} KeysFailSo(lib: Library, t: Table, keys: seq<string>) returns (i: nat, before: seq<Row>)
    requires ValidTable(t) && KeysStream(lib, t, LiveKeys(t, keys)).err.Some?
    ensures i < |keys| && FailsIn(lib, t, keys, i, before, KeysStream(lib, t, LiveKeys(t, keys)))
  {
    FirstKeyStream(lib, t, keys);
    var later := KeysStream(lib, t, LiveKeys(t, keys[1..]));
    if Live(t, keys[0]) && PartitionStream(lib, t, t.partitions[keys[0]]).err.Some? {
      PartitionFailsSo(lib, t, t.partitions[keys[0]]);
      FailsInFirst(lib, t, keys, PartitionStream(lib, t, t.partitions[keys[0]]));
      i, before := 0, [];
    } else {
      i, before := KeysFailSo(lib, t, keys[1..]);
      FailsAfterFirst(lib, t, keys, i, before, later);
      var first := if Live(t, keys[0]) then PartitionStream(lib, t, t.partitions[keys[0]]).rows else [];
      assert [] + later.rows == later.rows;
      i, before := i + 1, first + before;
    }
  }

  /**
   A read that fails has yielded the chosen rows of all earlier partitions; of the partition it fails
   in, nothing if the lookup fails on one of its rows, and otherwise the chosen rows before the first
   row on which a filter fails. The error is that of the lookup or the filter.
   */
  lemma FailedRead(lib: Library, t: Table)
    requires ValidTable(t) && TableStream(lib, t).err.Some?
    ensures exists i, before :: 0 <= i < |t.keys| && FailsIn(lib, t, t.keys, i, before, TableStream(lib, t))
  {
    var i, before := KeysFailSo(lib, t, t.keys);
  }

  // ---------------------------------------------------------------- projections

  /** The first column of that name, whatever the case. */
  function IndexOf(fold: string -> string, schema: seq<string>, name: string): (r: Option<nat>)
    ensures r.Some? ==> r.value < |schema| && fold(schema[r.value]) == fold(name)
    ensures r.Some? ==> forall j :: 0 <= j < r.value ==> fold(schema[j]) != fold(name)
    ensures r.None? <==> forall j :: 0 <= j < |schema| ==> fold(schema[j]) != fold(name)
  {
    if schema == [] then None
    else
      match IndexOf(fold, schema[..|schema| - 1], name)
      case Some(i) => Some(i)
      case None => if fold(schema[|schema| - 1]) == fold(name) then Some(|schema| - 1) else None
  }

  /** The schema and the columns of a table belong together. */
  predicate Projectable(t: Table) {
    t.columns == [] || |t.columns| == |t.schema|
  }

  /** A column of the table's schema, as a position in the rows it stores. */
  function Stored(t: Table, i: nat): (p: nat)
    requires Projectable(t) && i < |t.schema|
  {
    if t.columns == [] then i else t.columns[i]
  }

  /** All names are in the schema. */
  predicate Known(t: Table, names: seq<string>) {
    forall k :: 0 <= k < |names| ==> IndexOf(t.fold, t.schema, names[k]).Some?
  }

  /** The table with the columns that the names stand for, in their order. */
  function Projected(t: Table, names: seq<string>): Table
    requires Projectable(t) && Known(t, names)
  {
    t.(columns := seq(|names|, k requires 0 <= k < |names| => Stored(t, IndexOf(t.fold, t.schema, names[k]).value)),
       schema := seq(|names|, k requires 0 <= k < |names| => t.schema[IndexOf(t.fold, t.schema, names[k]).value]))
  }

  /** None: a name is not in the schema. */
  method NewColumnIndexesAndSchema(t: Table, names: seq<string>) returns (r: Option<(seq<nat>, seq<string>)>)
    requires Projectable(t)
    ensures r.Some? <==> Known(t, names)
    ensures r.Some? ==> r.value == (Projected(t, names).columns, Projected(t, names).schema)
  {
    var columns, schema := [], [];
    for k := 0 to |names|
      invariant Known(t, names[..k])
      invariant columns == Projected(t, names[..k]).columns && schema == Projected(t, names[..k]).schema
    {
      assert names[..k + 1] == names[..k] + [names[k]];
      var i := IndexOf(t.fold, t.schema, names[k]);
      if i.None? {
        return None;
      }
      columns := columns + [Stored(t, i.value)];
      schema := schema + [t.schema[i.value]];
    }
    assert names[..|names|] == names;
    return Some((columns, schema));
  }

  /** WithProjection: no names leave the table as it is; an unknown name panics. */
  method WithProjection(t: Table, names: seq<string>) returns (r: Option<Table>)
    requires Projectable(t)
    ensures r == Projection(t, names)
  {
    if names == [] {
      return Some(t);
    }
    var p := NewColumnIndexesAndSchema(t, names);
    match p
    case None => r := None;
    case Some((columns, schema)) => r := Some(t.(columns := columns, schema := schema));
  }

  function Projection(t: Table, names: seq<string>): (r: Option<Table>)
    requires Projectable(t)
    ensures r.Some? ==> Projectable(r.value)
  {
    if names == [] then Some(t) else if Known(t, names) then Some(Projected(t, names)) else None
  }

  /** A run of projections, each of the result of the one before. */
  function Projections(t: Table, chain: seq<seq<string>>): (r: Option<Table>)
    requires Projectable(t)
    ensures r.Some? ==> Projectable(r.value)
  {
    if chain == [] then Some(t)
    else
      match Projections(t, chain[..|chain| - 1])
      case None => None
      case Some(u) => Projection(u, chain[|chain| - 1])
  }

  /** The last names a run asks for. */
  function LastNames(chain: seq<seq<string>>): seq<string> {
    if chain == [] then []
    else if chain[|chain| - 1] != [] then chain[|chain| - 1]
    else LastNames(chain[..|chain| - 1])
  }

  lemma SameFolding(fold: string -> string, schema: seq<string>, a: string, b: string)
    requires fold(a) == fold(b)
    ensures IndexOf(fold, schema, a) == IndexOf(fold, schema, b)
  {
    var i, j := IndexOf(fold, schema, a), IndexOf(fold, schema, b);
    if i.Some? && j.Some? {
      assert i.value <= j.value && j.value <= i.value;
    }
  }

  /** Looking a name up in a projection finds the column it names in the table itself. */
  lemma ProjectedLookup(t: Table, names: seq<string>, name: string)
    requires t.columns == [] && names != [] && Known(t, names)
    requires IndexOf(t.fold, Projected(t, names).schema, name).Some?
    ensures var u := Projected(t, names);
            var i := IndexOf(t.fold, u.schema, name).value;
            IndexOf(t.fold, t.schema, name) == Some(u.columns[i]) && t.schema[u.columns[i]] == u.schema[i]
  {
    var i := IndexOf(t.fold, Projected(t, names).schema, name).value;
    SameFolding(t.fold, t.schema, names[i], name);
  }

  /** Projecting a projection is projecting the table itself. */
  lemma ProjectTwice(t: Table, first: seq<string>, second: seq<string>)
    requires t.columns == [] && first != [] && Known(t, first) && Known(Projected(t, first), second)
    ensures Known(t, second) && Projected(Projected(t, first), second) == Projected(t, second)
  {
    var u := Projected(t, first);
    forall k | 0 <= k < |second|
      ensures var i := IndexOf(u.fold, u.schema, second[k]).value;
              IndexOf(t.fold, t.schema, second[k]) == Some(u.columns[i]) && t.schema[u.columns[i]] == u.schema[i]
    {
      ProjectedLookup(t, first, second[k]);
    }
  }

  /** However many projections a table goes through, the result is the one projection on the last names asked for. */
  lemma {:induction false} ProjectionsCompose(t: Table, chain: seq<seq<string>>)
    requires t.columns == [] && Projections(t, chain).Some?
    ensures Projections(t, chain) == Projection(t, LastNames(chain))
    decreases |chain|
  {
    if chain != [] {
      var n := |chain| - 1;
      ProjectionsCompose(t, chain[..n]);
      var first := LastNames(chain[..n]);
      if chain[n] != [] && first != [] {
        ProjectTwice(t, first, chain[n]);
      }
    }
  }

  /** A row read through the projections holds, at each place, the value of the column its name stands for. */
  lemma ProjectedValues(t: Table, chain: seq<seq<string>>, row: Row)
    requires t.columns == [] && Projections(t, chain).Some? && |row| == |t.schema|
    ensures var columns, names := Projections(t, chain).value.columns, LastNames(chain);
            && Below(columns, |row|)
            && (names == [] ==> Project(columns, row) == row)
            && (names != [] ==>
                  && Known(t, names) && |Project(columns, row)| == |names|
                  && forall k :: 0 <= k < |names| ==> Project(columns, row)[k] == row[IndexOf(t.fold, t.schema, names[k]).value])
  {
    ProjectionsCompose(t, chain);
  }

  // ---------------------------------------------------------------- reading through projections

  /** Every stored row has a value for each column of the schema. */
  predicate Sized(t: Table) {
    forall k, r :: k in t.partitions && r in t.partitions[k] ==> |r| == |t.schema|
  }

  /** The values of the named columns; no names stand for the whole row. */
  function Named(t: Table, names: seq<string>, row: Row): Row
    requires |row| == |t.schema| && Known(t, names)
  {
    if names == [] then row
    else seq(|names|, k requires 0 <= k < |names| => row[IndexOf(t.fold, t.schema, names[k]).value])
  }

  predicate AllSized(t: Table, rows: seq<Row>) {
    forall i :: 0 <= i < |rows| ==> |rows[i]| == |t.schema|
  }

  function NamedAll(t: Table, names: seq<string>, rows: seq<Row>): seq<Row>
    requires AllSized(t, rows) && Known(t, names)
  {
    seq(|rows|, i requires 0 <= i < |rows| => Named(t, names, rows[i]))
  }

  lemma ProjectionFits(t: Table, names: seq<string>)
    requires ValidTable(t) && t.columns == [] && Sized(t) && Known(t, names)
    ensures Projection(t, names).Some? && ValidTable(Projection(t, names).value)
  {
  }

  lemma ProjectNamed(t: Table, names: seq<string>, row: Row)
    requires t.columns == [] && Known(t, names) && |row| == |t.schema|
    ensures var u := Projection(t, names).value;
            Below(u.columns, |row|) && Project(u.columns, row) == Named(t, names, row)
  {
  }

  lemma {:induction false} SameScan(t: Table, u: Table, keys: seq<string>)
    requires ValidTable(t) && ValidTable(u) && u.partitions == t.partitions && Sized(t)
    ensures FullScan(u, keys) == FullScan(t, keys) && AllSized(t, FullScan(t, keys))
  {
    if keys != [] {
      SameScan(t, u, keys[1..]);
    }
  }

  /** What a row contributes to a projected read is the named part of what it contributes to a plain one. */
  lemma PickOneNamed(lib: Library, t: Table, names: seq<string>, row: Row)
    requires ValidTable(t) && t.columns == [] && Sized(t) && Known(t, names) && |row| == |t.schema|
    ensures var u := Projection(t, names).value;
            && ValidTable(u) && Below(u.columns, |row|)
            && var p := PickOne(lib, t, row);
              && (p.Some? ==> AllSized(t, p.value))
              && PickOne(lib, u, row) == if p.None? then None else Some(NamedAll(t, names, p.value))
  {
    ProjectionFits(t, names);
    ProjectNamed(t, names, row);
    var u := Projection(t, names).value;
    assert Chosen(lib, u, row) == Chosen(lib, t, row);
    assert Project(t.columns, row) == row && AllSized(t, [row]) && AllSized(t, []);
    assert NamedAll(t, names, [row]) == [Named(t, names, row)] && NamedAll(t, names, []) == [];
  }

  lemma NamedAllMore(t: Table, names: seq<string>, a: seq<Row>, b: seq<Row>)
    requires AllSized(t, a) && AllSized(t, b) && Known(t, names)
    ensures AllSized(t, a + b) && NamedAll(t, names, a + b) == NamedAll(t, names, a) + NamedAll(t, names, b)
  {
  }

  lemma {:induction false} PickNamed(lib: Library, t: Table, names: seq<string>, rows: seq<Row>)
    requires ValidTable(t) && t.columns == [] && Sized(t) && Known(t, names) && AllSized(t, rows)
    ensures var u := Projection(t, names).value;
            && ValidTable(u) && Fits(u.columns, rows) && Fits(t.columns, rows)
            && var p := Pick(lib, t, rows);
              && (p.Some? ==> AllSized(t, p.value))
              && Pick(lib, u, rows) == if p.None? then None else Some(NamedAll(t, names, p.value))
    decreases |rows|
  {
    ProjectionFits(t, names);
    forall r | r in rows ensures Below(Projection(t, names).value.columns, |r|) {
      ProjectNamed(t, names, r);
    }
    if rows == [] {
      assert AllSized(t, []) && NamedAll(t, names, []) == [];
    } else {
      var n := |rows| - 1;
      PickNamed(lib, t, names, rows[..n]);
      PickOneNamed(lib, t, names, rows[n]);
      var a, b := Pick(lib, t, rows[..n]), PickOne(lib, t, rows[n]);
      if a.Some? && b.Some? {
        NamedAllMore(t, names, a.value, b.value);
      }
    }
  }

  /**
   Reading a table with a lookup and filters through any chain of projections yields exactly the rows
   of a full scan that the lookup and the filters choose, in scan order, each reduced to the columns
   that the last names stand for; and it fails exactly when the read without projections does.
   */
  lemma ReadThroughProjections(lib: Library, t: Table, chain: seq<seq<string>>)
    requires ValidTable(t) && t.columns == [] && Sized(t) && Projections(t, chain).Some?
    ensures Known(t, LastNames(chain)) && ValidTable(Projections(t, chain).value)
    ensures var chosen := Pick(lib, t, FullScan(t, t.keys));
            && (chosen.Some? ==> AllSized(t, chosen.value))
            && Complete(TableStream(lib, t)) == chosen
            && Complete(TableStream(lib, Projections(t, chain).value)) ==
               if chosen.None? then None else Some(NamedAll(t, LastNames(chain), chosen.value))
  {
    ProjectionsCompose(t, chain);
    var names := LastNames(chain);
    var u := Projections(t, chain).value;
    ProjectionFits(t, names);
    SameScan(t, u, t.keys);
    PickNamed(lib, t, names, FullScan(t, t.keys));
    ReadIsFilteredScan(lib, t);
    ReadIsFilteredScan(lib, u);
  }
}
