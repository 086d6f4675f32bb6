/**
 How a GroupBy node forms its groups and fills its buffers, from sql/plan/group_by.go: what the
 groups of a table are, what a selected expression is over a group, and the one pass over the
 rows that computes them.
 */
module Grouping {
  import opened Wrappers
  import opened Expressions
  import opened GroupBy

  // ---------------------------------------------------------------- what the groups are

  /** The grouping expressions evaluate on every row. */
  predicate Keyed(lib: Library, grouping: seq<Expr>, rows: seq<Row>) {
    forall i :: 0 <= i < |rows| ==> EvalAll(lib, grouping, rows[i]).Ok?
  }

  /** The checksum of each row's grouping values. */
  function KeysOf(lib: Library, checksum: Row -> nat, grouping: seq<Expr>, rows: seq<Row>): seq<nat>
    requires Keyed(lib, grouping, rows)
  {
    seq(|rows|, i requires 0 <= i < |rows| => checksum(EvalAll(lib, grouping, rows[i]).value))
  }

  /** `at` lists exactly the positions of the key, in order. */
  predicate Places(keys: seq<nat>, key: nat, at: seq<nat>) {
    && (forall i :: 0 <= i < |at| ==> at[i] < |keys|)
    && (forall i, j :: 0 <= i < j < |at| ==> at[i] < at[j])
    && forall p :: 0 <= p < |keys| ==> (p in at <==> keys[p] == key)
  }

  /** The group holds the rows at these positions, which are those of its key; there is at least one. */
  predicate Holds(keys: seq<nat>, rows: seq<Row>, group: Group, at: seq<nat>)
    requires |keys| == |rows|
  {
    && at != [] && Places(keys, group.key, at) && |group.rows| == |at|
    && forall i :: 0 <= i < |at| ==> group.rows[i] == rows[at[i]]
  }

  /** No group has the key. */
  predicate Unknown(groups: seq<Group>, key: nat) {
    forall g :: 0 <= g < |groups| ==> groups[g].key != key
  }

  /** Each group holds the rows of its key, the keys are in the order in which the rows first have them, and every row has one. */
  predicate Grouped(keys: seq<nat>, rows: seq<Row>, groups: seq<Group>, ats: seq<seq<nat>>)
    requires |keys| == |rows|
  {
    && |ats| == |groups|
    && (forall g :: 0 <= g < |groups| ==> Holds(keys, rows, groups[g], ats[g]))
    && (forall g, h :: 0 <= g < h < |groups| ==> groups[g].key != groups[h].key && ats[g][0] < ats[h][0])
    && AllKnown(keys, groups)
  }

  /** Every key is that of a group. */
  predicate AllKnown(keys: seq<nat>, groups: seq<Group>) {
    forall p :: 0 <= p < |keys| ==> !Unknown(groups, keys[p])
  }

  /** A row of an unknown key opens a group at the end. */
  lemma {:induction false} OpensGroup(groups: seq<Group>, key: nat, row: Row)
    requires Unknown(groups, key)
    ensures AddToGroup(groups, key, row) == groups + [Group(key, [row])]
  {
    if groups != [] {
      OpensGroup(groups[1..], key, row);
      assert [groups[0]] + (groups[1..] + [Group(key, [row])]) == groups + [Group(key, [row])];
    }
  }

  /** A row of a known key joins the first group of that key. */
  lemma {:induction false} JoinsGroup(groups: seq<Group>, g: nat, row: Row)
    requires g < |groups| && Unknown(groups[..g], groups[g].key)
    ensures AddToGroup(groups, groups[g].key, row) == groups[g := Group(groups[g].key, groups[g].rows + [row])]
    decreases g
  {
    var joined := Group(groups[g].key, groups[g].rows + [row]);
    if g == 0 {
      assert groups[0 := joined] == [joined] + groups[1..];
    } else {
      assert groups[..g][0] == groups[0] && groups[1..][..g - 1] == groups[..g][1..] && groups[1..][g - 1] == groups[g];
      JoinsGroup(groups[1..], g - 1, row);
      assert [groups[0]] + groups[1..][g - 1 := joined] == groups[g := joined];
    }
  }

  /** The positions of a key, with one more row. */
  lemma PlacesMore(keys: seq<nat>, key: nat, at: seq<nat>, next: nat)
    requires Places(keys, key, at)
    ensures Places(keys + [next], key, if next == key then at + [|keys|] else at)
  {
  }

  lemma HoldsMore(keys: seq<nat>, rows: seq<Row>, group: Group, at: seq<nat>, next: nat, row: Row)
    requires |keys| == |rows| && Holds(keys, rows, group, at)
    ensures next != group.key ==> Holds(keys + [next], rows + [row], group, at)
    ensures next == group.key ==> Holds(keys + [next], rows + [row], Group(next, group.rows + [row]), at + [|rows|])
  {
    PlacesMore(keys, group.key, at, next);
  }

  /** A row of a known key joins its group. */
  lemma GroupedJoin(keys: seq<nat>, rows: seq<Row>, groups: seq<Group>, ats: seq<seq<nat>>, g: nat, row: Row)
    requires |keys| == |rows| && Grouped(keys, rows, groups, ats) && g < |groups|
    ensures Grouped(keys + [groups[g].key], rows + [row], groups[g := Group(groups[g].key, groups[g].rows + [row])],
                    ats[g := ats[g] + [|rows|]])
  {
    var key := groups[g].key;
    forall h | 0 <= h < |groups|
      ensures if h == g then Holds(keys + [key], rows + [row], Group(key, groups[g].rows + [row]), ats[g] + [|rows|])
              else Holds(keys + [key], rows + [row], groups[h], ats[h])
    {
      HoldsMore(keys, rows, groups[h], ats[h], key, row);
    }
    KnownKeys(keys, groups, groups[g := Group(key, groups[g].rows + [row])], key, g);
  }

  /** A row of a new key opens a group. */
  lemma GroupedOpen(keys: seq<nat>, rows: seq<Row>, groups: seq<Group>, ats: seq<seq<nat>>, key: nat, row: Row)
    requires |keys| == |rows| && Grouped(keys, rows, groups, ats)
    requires Unknown(groups, key)
    ensures Grouped(keys + [key], rows + [row], groups + [Group(key, [row])], ats + [[|rows|]])
  {
    forall h | 0 <= h < |groups|
      ensures Holds(keys + [key], rows + [row], groups[h], ats[h])
    {
      HoldsMore(keys, rows, groups[h], ats[h], key, row);
    }
    OpensAlone(keys, rows, groups, key, row);
    KnownKeys(keys, groups, groups + [Group(key, [row])], key, |groups|);
  }

  lemma OpensAlone(keys: seq<nat>, rows: seq<Row>, groups: seq<Group>, key: nat, row: Row)
    requires |keys| == |rows| && Unknown(groups, key)
    requires AllKnown(keys, groups)
    ensures Holds(keys + [key], rows + [row], Group(key, [row]), [|rows|])
  {
    assert forall p :: 0 <= p < |keys| ==> keys[p] != key;
  }

  lemma KnownKeys(keys: seq<nat>, groups: seq<Group>, groups': seq<Group>, key: nat, at: nat)
    requires AllKnown(keys, groups)
    requires |groups| <= |groups'| && at < |groups'| && groups'[at].key == key
    requires forall g :: 0 <= g < |groups| ==> groups'[g].key == groups[g].key
    ensures AllKnown(keys + [key], groups')
  {
    forall p | 0 <= p < |keys + [key]|
      ensures !Unknown(groups', (keys + [key])[p])
    {
      if p < |keys| {
        var g :| 0 <= g < |groups| && groups[g].key == keys[p];
        assert groups'[g].key == keys[p];
      }
    }
  }

  lemma GroupsGrow(keys: seq<nat>, rows: seq<Row>, groups: seq<Group>, ats: seq<seq<nat>>, key: nat, row: Row) returns (ats': seq<seq<nat>>)
    requires |keys| == |rows| && Grouped(keys, rows, groups, ats)
    ensures Grouped(keys + [key], rows + [row], AddToGroup(groups, key, row), ats')
  {
    if g :| 0 <= g < |groups| && groups[g].key == key {
      JoinsGroup(groups, g, row);
      GroupedJoin(keys, rows, groups, ats, g, row);
      ats' := ats[g := ats[g] + [|rows|]];
    } else {
      OpensGroup(groups, key, row);
      GroupedOpen(keys, rows, groups, ats, key, row);
      ats' := ats + [[|rows|]];
    }
  }

  /** The keys and the groups of a table, from those of all rows but the last. */
  lemma OneRowMore(lib: Library, checksum: Row -> nat, grouping: seq<Expr>, rows: seq<Row>)
    requires grouping != [] && rows != []
    ensures var n := |rows| - 1;
            var last := EvalAll(lib, grouping, rows[n]);
            && (Keyed(lib, grouping, rows) <==> Keyed(lib, grouping, rows[..n]) && last.Ok?)
            && (Keyed(lib, grouping, rows) ==>
                  KeysOf(lib, checksum, grouping, rows) == KeysOf(lib, checksum, grouping, rows[..n]) + [checksum(last.value)])
  {
    var n := |rows| - 1;
    assert forall i :: 0 <= i < n ==> rows[..n][i] == rows[i];
  }

  lemma {:induction false} GroupedBy(lib: Library, checksum: Row -> nat, grouping: seq<Expr>, rows: seq<Row>) returns (ats: seq<seq<nat>>)
    requires grouping != []
    ensures Groups(lib, checksum, grouping, rows).Ok? <==> Keyed(lib, grouping, rows)
    ensures Keyed(lib, grouping, rows) ==>
              Grouped(KeysOf(lib, checksum, grouping, rows), rows, Groups(lib, checksum, grouping, rows).value, ats)
    decreases |rows|
  {
    ats := [];
    if rows != [] {
      var n := |rows| - 1;
      ats := GroupedBy(lib, checksum, grouping, rows[..n]);
      OneRowMore(lib, checksum, grouping, rows);
      if Keyed(lib, grouping, rows) {
        var groups, key := Groups(lib, checksum, grouping, rows[..n]).value, EvalAll(lib, grouping, rows[n]).value;
        ats := GroupsGrow(KeysOf(lib, checksum, grouping, rows[..n]), rows[..n], groups, ats, checksum(key), rows[n]);
        assert rows[..n] + [rows[n]] == rows;
      }
    }
  }

  /**
   The groups of a table exist exactly when every row's grouping expressions evaluate. Then no two
   groups have the same key, they stand in the order in which their keys first occur, each holds
   exactly the rows of its key in table order, and every row is in one.
   */
  lemma GroupsAre(lib: Library, checksum: Row -> nat, grouping: seq<Expr>, rows: seq<Row>)
    requires grouping != []
    ensures Groups(lib, checksum, grouping, rows).Ok? <==> Keyed(lib, grouping, rows)
    ensures Keyed(lib, grouping, rows) ==>
              exists ats :: Grouped(KeysOf(lib, checksum, grouping, rows), rows, Groups(lib, checksum, grouping, rows).value, ats)
  {
    var ats := GroupedBy(lib, checksum, grouping, rows);
  }

  // ---------------------------------------------------------------- what a selected expression is over a group

  /** The buffers an aggregation goes through: a new one, then one more for each row, updated with that row's value. */
  predicate Chain(lib: Library, fn: string, child: Expr, rows: seq<Row>, buffers: seq<Row>) {
    && |buffers| == |rows| + 1 && buffers[0] == lib.newBuffer(fn)
    && forall i :: 0 <= i < |rows| ==> Links(lib, fn, child, rows[i], buffers[i], buffers[i + 1])
  }

  predicate Links(lib: Library, fn: string, child: Expr, row: Row, buffer: Row, buffer': Row) {
    var v := Eval(lib, child, row);
    v.Ok? && lib.update(fn, buffer, v.value) == Ok(buffer')
  }

  lemma {:induction false} ChainBack(lib: Library, fn: string, child: Expr, rows: seq<Row>, buffers: seq<Row>)
    requires Chain(lib, fn, child, rows, buffers)
    ensures Accumulate(lib, fn, child, rows) == Ok(buffers[|rows|])
    decreases |rows|
  {
    if rows != [] {
      var n := |rows| - 1;
      ChainBack(lib, fn, child, rows[..n], buffers[..n + 1]);
      assert Links(lib, fn, child, rows[n], buffers[n], buffers[n + 1]);
    }
  }

  lemma {:induction false} ChainFor(lib: Library, fn: string, child: Expr, rows: seq<Row>) returns (buffers: seq<Row>)
    requires Accumulate(lib, fn, child, rows).Ok?
    ensures Chain(lib, fn, child, rows, buffers) && Accumulate(lib, fn, child, rows).value == buffers[|rows|]
    decreases |rows|
  {
    if rows == [] {
      buffers := [lib.newBuffer(fn)];
    } else {
      var n := |rows| - 1;
      var before := ChainFor(lib, fn, child, rows[..n]);
      buffers := before + [Accumulate(lib, fn, child, rows).value];
      assert forall i :: 0 <= i < n ==> Links(lib, fn, child, rows[..n][i], before[i], before[i + 1]);
      assert Links(lib, fn, child, rows[n], buffers[n], buffers[n + 1]);
    }
  }

  /** An aggregation over a group is what it makes of a buffer that was updated with the value of every row, in order. */
  lemma AggValueIff(lib: Library, fn: string, child: Expr, rows: seq<Row>, v: Value)
    ensures AggValue(lib, fn, child, rows) == Ok(v) <==>
            exists buffers :: Chain(lib, fn, child, rows, buffers) && lib.evalBuffer(fn, buffers[|rows|]) == Ok(v)
  {
    if AggValue(lib, fn, child, rows) == Ok(v) {
      var buffers := ChainFor(lib, fn, child, rows);
    }
    if buffers :| Chain(lib, fn, child, rows, buffers) && lib.evalBuffer(fn, buffers[|rows|]) == Ok(v) {
      ChainBack(lib, fn, child, rows, buffers);
    }
  }

  /** Any other expression must evaluate on every row, and has the value of the last; on no rows it is NULL. */
  lemma {:induction false} LastValueIff(lib: Library, e: Expr, rows: seq<Row>)
    ensures LastValue(lib, e, rows).Ok? <==> forall i :: 0 <= i < |rows| ==> Eval(lib, e, rows[i]).Ok?
    ensures LastValue(lib, e, rows).Ok? ==> LastValue(lib, e, rows) == if rows == [] then Ok(Null) else Eval(lib, e, rows[|rows| - 1])
    decreases |rows|
  {
    if rows != [] {
      var n := |rows| - 1;
      LastValueIff(lib, e, rows[..n]);
      assert rows == rows[..n] + [rows[n]];
    }
  }

  /** A query yields one row for each group, in the order of the groups, or fails when one of them does. */
  lemma {:induction false} PerGroupIff(f: seq<Row> -> RowResult, groups: seq<Group>)
    ensures PerGroup(f, groups).Ok? <==> forall g :: 0 <= g < |groups| ==> f(groups[g].rows).Ok?
    ensures PerGroup(f, groups).Ok? ==>
              && |PerGroup(f, groups).value| == |groups|
              && forall g :: 0 <= g < |groups| ==> f(groups[g].rows) == Ok(PerGroup(f, groups).value[g])
  {
    if groups != [] {
      PerGroupIff(f, groups[1..]);
      assert groups == [groups[0]] + groups[1..];
    }
  }

  // ---------------------------------------------------------------- buffers

  /** fillBuffer. */
  function NewBuffer(lib: Library, e: Expr): Row {
    match e
    case Agg(fn, _) => lib.newBuffer(fn)
    case Alias(_, c) => NewBuffer(lib, c)
    case _ => []
  }

  /** updateBuffer. */
  function UpdateBuffer(lib: Library, e: Expr, buffer: Row, row: Row): RowResult {
    match e
    case Agg(fn, c) => (match Eval(lib, c, row) case Err(x) => Err(x) case Ok(v) => lib.update(fn, buffer, v))
    case Alias(_, c) => UpdateBuffer(lib, c, buffer, row)
    case _ => (match Eval(lib, e, row) case Err(x) => Err(x) case Ok(v) => Ok([v]))
  }

  /** evalBuffer. */
  function EvalBuffer(lib: Library, e: Expr, buffer: Row): EvalResult {
    match e
    case Agg(fn, _) => lib.evalBuffer(fn, buffer)
    case Alias(_, c) => EvalBuffer(lib, c, buffer)
    case _ => if |buffer| > 0 then Ok(buffer[0]) else Ok(Null)
  }

  /** The buffer of a selected expression after the rows of a group. */
  function Buffered(lib: Library, e: Expr, rows: seq<Row>): RowResult {
    if rows == [] then Ok(NewBuffer(lib, e))
    else
      match Buffered(lib, e, rows[..|rows| - 1])
      case Err(x) => Err(x)
      case Ok(buffer) => UpdateBuffer(lib, e, buffer, rows[|rows| - 1])
  }

  lemma {:induction false} BufferedAlias(lib: Library, e: Expr, rows: seq<Row>)
    requires e.Alias?
    ensures Buffered(lib, e, rows) == Buffered(lib, e.child, rows)
    decreases |rows|
  {
    if rows != [] {
      BufferedAlias(lib, e, rows[..|rows| - 1]);
    }
  }

  lemma {:induction false} BufferedAgg(lib: Library, e: Expr, rows: seq<Row>)
    requires e.Agg?
    ensures Buffered(lib, e, rows) == Accumulate(lib, e.fn, e.child, rows)
    decreases |rows|
  {
    if rows != [] {
      BufferedAgg(lib, e, rows[..|rows| - 1]);
    }
  }

  lemma {:induction false} BufferedLast(lib: Library, e: Expr, rows: seq<Row>)
    requires !e.Agg? && !e.Alias?
    ensures var last := LastValue(lib, e, rows);
            Buffered(lib, e, rows) == if last.Err? then Err(last.error) else Ok(if rows == [] then [] else [last.value])
    decreases |rows|
  {
    if rows != [] {
      BufferedLast(lib, e, rows[..|rows| - 1]);
    }
  }

  /** Evaluating the buffer gives the value of the selected expression over the group. */
  lemma {:induction false} SelectedIsBuffered(lib: Library, e: Expr, rows: seq<Row>)
    ensures SelectedValue(lib, e, rows) ==
            match Buffered(lib, e, rows) case Err(x) => Err(x) case Ok(buffer) => EvalBuffer(lib, e, buffer)
    decreases e
  {
    match e
    case Agg(_, _) => BufferedAgg(lib, e, rows);
    case Alias(_, c) =>
      BufferedAlias(lib, e, rows);
      SelectedIsBuffered(lib, c, rows);
    case _ =>
      BufferedLast(lib, e, rows);
      LastValueIff(lib, e, rows);
  }

  /** A buffer that cannot be filled from the first rows cannot be filled from all. */
  lemma {:induction false} BufferedPrefix(lib: Library, e: Expr, rows: seq<Row>, n: nat)
    requires n <= |rows| && Buffered(lib, e, rows).Ok?
    ensures Buffered(lib, e, rows[..n]).Ok?
    decreases |rows|
  {
    if n < |rows| {
      BufferedPrefix(lib, e, rows[..|rows| - 1], n);
      assert rows[..|rows| - 1][..n] == rows[..n];
    } else {
      assert rows[..n] == rows;
    }
  }

  // ---------------------------------------------------------------- groups only grow

  /** The groups of the first rows are there later, with these rows first. */
  predicate Continue(groups: seq<Group>, groups': seq<Group>) {
    |groups| <= |groups'| && forall g :: 0 <= g < |groups| ==> groups[g].key == groups'[g].key && groups[g].rows <= groups'[g].rows
  }

  lemma {:induction false} AddContinues(groups: seq<Group>, key: nat, row: Row)
    ensures Continue(groups, AddToGroup(groups, key, row))
  {
    if groups != [] {
      AddContinues(groups[1..], key, row);
    }
  }

  lemma {:induction false} GroupsContinue(lib: Library, checksum: Row -> nat, grouping: seq<Expr>, rows: seq<Row>, n: nat)
    requires grouping != [] && n <= |rows| && Groups(lib, checksum, grouping, rows).Ok?
    ensures Groups(lib, checksum, grouping, rows[..n]).Ok?
    ensures Continue(Groups(lib, checksum, grouping, rows[..n]).value, Groups(lib, checksum, grouping, rows).value)
    decreases |rows|
  {
    if n == |rows| {
      assert rows[..n] == rows;
    } else {
      var m := |rows| - 1;
      GroupsContinue(lib, checksum, grouping, rows[..m], n);
      assert rows[..m][..n] == rows[..n];
      AddContinues(Groups(lib, checksum, grouping, rows[..m]).value, checksum(EvalAll(lib, grouping, rows[m]).value), rows[m]);
    }
  }

  // ---------------------------------------------------------------- one pass over the rows

  /** These are the buffers of the selected expressions after the rows of a group. */
  predicate Filled(lib: Library, selected: seq<Expr>, rows: seq<Row>, buffers: seq<Row>) {
    |buffers| == |selected| && forall j :: 0 <= j < |selected| ==> Buffered(lib, selected[j], rows) == Ok(buffers[j])
  }

  /** The keys of the groups in order, and in the cache the buffers of each. */
  predicate Cached(lib: Library, selected: seq<Expr>, groups: seq<Group>, keys: seq<nat>, cache: map<nat, seq<Row>>) {
    && |keys| == |groups|
    && (forall g :: 0 <= g < |groups| ==> keys[g] == groups[g].key && keys[g] in cache && Filled(lib, selected, groups[g].rows, cache[keys[g]]))
    && forall key :: key in cache ==> key in keys
  }

  /** updateBuffers. */
  method UpdateBuffers(lib: Library, selected: seq<Expr>, buffers: seq<Row>, row: Row) returns (r: Result<seq<Row>, Error>)
    requires |buffers| == |selected|
    ensures r.Ok? <==> forall j :: 0 <= j < |selected| ==> UpdateBuffer(lib, selected[j], buffers[j], row).Ok?
    ensures r.Ok? ==> |r.value| == |selected| && forall j :: 0 <= j < |selected| ==> UpdateBuffer(lib, selected[j], buffers[j], row) == Ok(r.value[j])
  {
    var updated := buffers;
    for j := 0 to |selected|
      invariant |updated| == |buffers| && updated[j..] == buffers[j..]
      invariant forall i :: 0 <= i < j ==> UpdateBuffer(lib, selected[i], buffers[i], row) == Ok(updated[i])
    {
      assert updated[j] == updated[j..][0] == buffers[j..][0];
      var b := UpdateBuffer(lib, selected[j], updated[j], row);
      if b.Err? {
        return Err(b.error);
      }
      assert updated[j + 1..] == updated[j..][1..] == buffers[j + 1..];
      updated := updated[j := b.value];
    }
    return Ok(updated);
  }

  /** The updates of all buffers with a row. */
  predicate Updates(lib: Library, selected: seq<Expr>, buffers: seq<Row>, row: Row, updated: seq<Row>) {
    && |buffers| == |selected| == |updated|
    && forall j :: 0 <= j < |selected| ==> UpdateBuffer(lib, selected[j], buffers[j], row) == Ok(updated[j])
  }

  lemma FilledMore(lib: Library, selected: seq<Expr>, rows: seq<Row>, buffers: seq<Row>, row: Row, updated: seq<Row>)
    requires Filled(lib, selected, rows, buffers) && Updates(lib, selected, buffers, row, updated)
    ensures Filled(lib, selected, rows + [row], updated)
  {
    assert (rows + [row])[..|rows|] == rows;
  }

  /** A row of a known key is added to the buffers of its group. */
  lemma CachedJoin(lib: Library, selected: seq<Expr>, groups: seq<Group>, keys: seq<nat>, cache: map<nat, seq<Row>>, g: nat, row: Row, updated: seq<Row>)
    requires Cached(lib, selected, groups, keys, cache) && Distinct(groups) && g < |groups|
    requires Updates(lib, selected, cache[keys[g]], row, updated)
    ensures Cached(lib, selected, groups[g := Group(keys[g], groups[g].rows + [row])], keys, cache[keys[g] := updated])
  {
    var key := keys[g];
    var groups', cache' := groups[g := Group(key, groups[g].rows + [row])], cache[key := updated];
    FilledMore(lib, selected, groups[g].rows, cache[key], row, updated);
    forall h | 0 <= h < |groups'|
      ensures keys[h] == groups'[h].key && keys[h] in cache' && Filled(lib, selected, groups'[h].rows, cache'[keys[h]])
    {
      if h != g {
        assert groups[h].key != groups[g].key;
      }
    }
  }

  /** A row of a new key opens a group with buffers of its own. */
  lemma CachedOpen(lib: Library, selected: seq<Expr>, groups: seq<Group>, keys: seq<nat>, cache: map<nat, seq<Row>>, key: nat, row: Row,
                   buffers: seq<Row>, updated: seq<Row>)
    requires Cached(lib, selected, groups, keys, cache) && key !in cache
    requires Filled(lib, selected, [], buffers) && Updates(lib, selected, buffers, row, updated)
    ensures Cached(lib, selected, groups + [Group(key, [row])], keys + [key], cache[key := updated])
  {
    FilledMore(lib, selected, [], buffers, row, updated);
    assert [] + [row] == [row];
    var groups', keys', cache' := groups + [Group(key, [row])], keys + [key], cache[key := updated];
    forall h | 0 <= h < |groups'|
      ensures keys'[h] == groups'[h].key && keys'[h] in cache' && Filled(lib, selected, groups'[h].rows, cache'[keys'[h]])
    {
      if h < |groups| {
        assert keys[h] in cache && keys[h] != key;
      }
    }
    assert forall k :: k in keys ==> k in keys';
    assert keys'[|keys|] == key;
  }

  /** The keys and the cache with a row added: to the buffers of its key, or to new ones. */
  lemma CachedMore(lib: Library, selected: seq<Expr>, groups: seq<Group>, keys: seq<nat>, cache: map<nat, seq<Row>>, key: nat, row: Row,
                   buffers: seq<Row>, updated: seq<Row>)
    requires Cached(lib, selected, groups, keys, cache) && Distinct(groups)
    requires key in cache ==> buffers == cache[key]
    requires key !in cache ==> Filled(lib, selected, [], buffers)
    requires Updates(lib, selected, buffers, row, updated)
    ensures Cached(lib, selected, AddToGroup(groups, key, row), if key in cache then keys else keys + [key], cache[key := updated])
  {
    if key in cache {
      var g :| 0 <= g < |keys| && keys[g] == key;
      JoinsGroup(groups, g, row);
      CachedJoin(lib, selected, groups, keys, cache, g, row, updated);
    } else {
      OpensGroup(groups, key, row);
      CachedOpen(lib, selected, groups, keys, cache, key, row, buffers, updated);
    }
  }

  predicate Distinct(groups: seq<Group>) {
    forall g, h :: 0 <= g < h < |groups| ==> groups[g].key != groups[h].key
  }

  /** The buffers of some group cannot be filled. */
  ghost predicate Unfillable(lib: Library, selected: seq<Expr>, groups: seq<Group>) {
    exists g, j :: 0 <= g < |groups| && 0 <= j < |selected| && Buffered(lib, selected[j], groups[g].rows).Err?
  }

  lemma UnfillableMore(lib: Library, selected: seq<Expr>, groups: seq<Group>, groups': seq<Group>)
    requires Unfillable(lib, selected, groups) && Continue(groups, groups')
    ensures Unfillable(lib, selected, groups')
  {
    var g, j :| 0 <= g < |groups| && 0 <= j < |selected| && Buffered(lib, selected[j], groups[g].rows).Err?;
    var rows := groups'[g].rows;
    assert rows[..|groups[g].rows|] == groups[g].rows;
    if Buffered(lib, selected[j], rows).Ok? {
      BufferedPrefix(lib, selected[j], rows, |groups[g].rows|);
    }
  }

  lemma UpdateFails(lib: Library, selected: seq<Expr>, groups: seq<Group>, keys: seq<nat>, cache: map<nat, seq<Row>>, key: nat, row: Row,
                    buffers: seq<Row>, j: nat)
    requires Cached(lib, selected, groups, keys, cache) && Distinct(groups)
    requires key in cache ==> buffers == cache[key]
    requires key !in cache ==> Filled(lib, selected, [], buffers)
    requires j < |selected| == |buffers| && UpdateBuffer(lib, selected[j], buffers[j], row).Err?
    ensures Unfillable(lib, selected, AddToGroup(groups, key, row))
  {
    var groups', g := AddToGroup(groups, key, row), |groups|;
    if key in cache {
      g :| 0 <= g < |keys| && keys[g] == key;
      JoinsGroup(groups, g, row);
      assert groups'[g].rows == groups[g].rows + [row];
      assert groups'[g].rows[..|groups[g].rows|] == groups[g].rows;
    } else {
      OpensGroup(groups, key, row);
      assert groups'[g].rows == [row] && [row][..0] == [];
    }
    assert Buffered(lib, selected[j], groups'[g].rows).Err?;
  }

  /** groupByGroupingIter.compute: one pass that keeps the keys in the order they are met and the buffers of each. */
  method Compute(lib: Library, checksum: Row -> nat, selected: seq<Expr>, grouping: seq<Expr>, rows: seq<Row>)
      returns (keys: seq<nat>, cache: map<nat, seq<Row>>, err: Option<Error>)
    requires grouping != []
    ensures err.None? ==>
              && Groups(lib, checksum, grouping, rows).Ok?
              && Cached(lib, selected, Groups(lib, checksum, grouping, rows).value, keys, cache)
    ensures err.Some? ==>
              var groups := Groups(lib, checksum, grouping, rows);
              groups.Err? || Unfillable(lib, selected, groups.value)
  {
    keys, cache := [], map[];
    for k := 0 to |rows|
      invariant Groups(lib, checksum, grouping, rows[..k]).Ok?
      invariant Cached(lib, selected, Groups(lib, checksum, grouping, rows[..k]).value, keys, cache)
    {
      ghost var groups := Groups(lib, checksum, grouping, rows[..k]).value;
      GroupsDistinct(lib, checksum, grouping, rows[..k]);
      NextGroups(lib, checksum, grouping, rows, k);
      var values := EvalAll(lib, grouping, rows[k]);
      if values.Err? {
        return keys, cache, Some(values.error);
      }
      var key := checksum(values.value);
      var buffers := if key in cache then cache[key] else seq(|selected|, j requires 0 <= j < |selected| => NewBuffer(lib, selected[j]));
      var updated := UpdateBuffers(lib, selected, buffers, rows[k]);
      match updated
      case Err(x) =>
        ghost var j: nat :| j < |selected| && UpdateBuffer(lib, selected[j], buffers[j], rows[k]).Err?;
        UpdateFails(lib, selected, groups, keys, cache, key, rows[k], buffers, j);
        LaterUnfillable(lib, checksum, selected, grouping, rows, k + 1);
        return keys, cache, Some(x);
      case Ok(u) =>
        CachedMore(lib, selected, groups, keys, cache, key, rows[k], buffers, u);
        keys := if key in cache then keys else keys + [key];
        cache := cache[key := u];
    }
    assert rows[..|rows|] == rows;
    err := None;
  }

  lemma GroupsDistinct(lib: Library, checksum: Row -> nat, grouping: seq<Expr>, rows: seq<Row>)
    requires grouping != [] && Groups(lib, checksum, grouping, rows).Ok?
    ensures Distinct(Groups(lib, checksum, grouping, rows).value)
  {
    var ats := GroupedBy(lib, checksum, grouping, rows);
  }

  /** What the next row makes of the groups; if its grouping values fail, so do the groups of the whole table. */
  lemma NextGroups(lib: Library, checksum: Row -> nat, grouping: seq<Expr>, rows: seq<Row>, k: nat)
    requires grouping != [] && k < |rows| && Groups(lib, checksum, grouping, rows[..k]).Ok?
    ensures var values := EvalAll(lib, grouping, rows[k]);
            if values.Err? then Groups(lib, checksum, grouping, rows).Err?
            else Groups(lib, checksum, grouping, rows[..k + 1]) ==
                 Ok(AddToGroup(Groups(lib, checksum, grouping, rows[..k]).value, checksum(values.value), rows[k]))
  {
    assert rows[..k + 1][..k] == rows[..k] && rows[..k + 1][k] == rows[k];
    if Groups(lib, checksum, grouping, rows).Ok? {
      GroupsContinue(lib, checksum, grouping, rows, k + 1);
    }
  }

  lemma LaterUnfillable(lib: Library, checksum: Row -> nat, selected: seq<Expr>, grouping: seq<Expr>, rows: seq<Row>, n: nat)
    requires grouping != [] && n <= |rows| && Groups(lib, checksum, grouping, rows[..n]).Ok?
    requires Unfillable(lib, selected, Groups(lib, checksum, grouping, rows[..n]).value)
    ensures var groups := Groups(lib, checksum, grouping, rows);
            groups.Err? || Unfillable(lib, selected, groups.value)
  {
    if Groups(lib, checksum, grouping, rows).Ok? {
      GroupsContinue(lib, checksum, grouping, rows, n);
      UnfillableMore(lib, selected, Groups(lib, checksum, grouping, rows[..n]).value, Groups(lib, checksum, grouping, rows).value);
    }
  }

  /** evalBuffers. */
  method EvalBuffers(lib: Library, selected: seq<Expr>, buffers: seq<Row>, ghost rows: seq<Row>) returns (r: RowResult)
    requires Filled(lib, selected, rows, buffers)
    ensures SameOutcome(r, GroupRow(lib, selected, rows))
  {
    ghost var values := SelectedValues(lib, selected, rows);
    var row: Row := [];
    for j := 0 to |selected|
      invariant |row| == j && forall i :: 0 <= i < j ==> values[i] == Ok(row[i])
    {
      SelectedIsBuffered(lib, selected[j], rows);
      var v := EvalBuffer(lib, selected[j], buffers[j]);
      assert values[j] == v;
      if v.Err? {
        return Err(v.error);
      }
      row := row + [v.value];
    }
    assert Collect(values).Ok? && Collect(values).value == row;
    return Ok(row);
  }

  /** A query over groups that all yield a row answers these rows. */
  lemma QueryYields(lib: Library, checksum: Row -> nat, selected: seq<Expr>, grouping: seq<Expr>, rows: seq<Row>, groups: seq<Group>, out: seq<Row>)
    requires Groups(lib, checksum, grouping, rows) == Ok(groups) && |out| == |groups|
    requires forall g :: 0 <= g < |groups| ==> GroupRow(lib, selected, groups[g].rows) == Ok(out[g])
    ensures Query(lib, checksum, GroupByPlan(selected, grouping), rows) == Ok(out)
  {
    var plan := GroupByPlan(selected, grouping);
    PerGroupIff(group => PlanRow(lib, plan, group), groups);
    assert forall g :: 0 <= g < |groups| ==> PlanRow(lib, plan, groups[g].rows) == Ok(out[g]);
    assert PerGroup(group => PlanRow(lib, plan, group), groups).value == out;
  }

  /** A query over a group that yields none fails. */
  lemma QueryFails(lib: Library, checksum: Row -> nat, selected: seq<Expr>, grouping: seq<Expr>, rows: seq<Row>, groups: seq<Group>, g: nat)
    requires Groups(lib, checksum, grouping, rows) == Ok(groups) && g < |groups| && GroupRow(lib, selected, groups[g].rows).Err?
    ensures Query(lib, checksum, GroupByPlan(selected, grouping), rows).Err?
  {
    var plan := GroupByPlan(selected, grouping);
    PerGroupIff(group => PlanRow(lib, plan, group), groups);
    assert PlanRow(lib, plan, groups[g].rows).Err?;
  }

  /** A group whose buffers cannot be filled yields no row. */
  lemma UnfillableFails(lib: Library, checksum: Row -> nat, selected: seq<Expr>, grouping: seq<Expr>, rows: seq<Row>, groups: seq<Group>)
    requires Groups(lib, checksum, grouping, rows) == Ok(groups) && Unfillable(lib, selected, groups)
    ensures Query(lib, checksum, GroupByPlan(selected, grouping), rows).Err?
  {
    var g, j :| 0 <= g < |groups| && 0 <= j < |selected| && Buffered(lib, selected[j], groups[g].rows).Err?;
    SelectedIsBuffered(lib, selected[j], groups[g].rows);
    assert SelectedValues(lib, selected, groups[g].rows)[j].Err?;
    QueryFails(lib, checksum, selected, grouping, rows, groups, g);
  }

  /** The rows of the first groups. */
  predicate GroupRows(lib: Library, selected: seq<Expr>, groups: seq<Group>, out: seq<Row>) {
    |out| <= |groups| && forall g :: 0 <= g < |out| ==> GroupRow(lib, selected, groups[g].rows) == Ok(out[g])
  }

  lemma GroupRowsMore(lib: Library, selected: seq<Expr>, groups: seq<Group>, out: seq<Row>, row: Row)
    requires GroupRows(lib, selected, groups, out) && |out| < |groups| && GroupRow(lib, selected, groups[|out|].rows) == Ok(row)
    ensures GroupRows(lib, selected, groups, out + [row])
  {
  }

  /** The rows of the cached groups, in the order of their keys. */
  method CachedRows(lib: Library, selected: seq<Expr>, keys: seq<nat>, cache: map<nat, seq<Row>>, ghost groups: seq<Group>)
      returns (r: Result<seq<Row>, Error>)
    requires Cached(lib, selected, groups, keys, cache)
    ensures r.Ok? ==> |r.value| == |groups| && GroupRows(lib, selected, groups, r.value)
    ensures r.Err? ==> exists g :: 0 <= g < |groups| && GroupRow(lib, selected, groups[g].rows).Err?
  {
    var out: seq<Row> := [];
    for pos := 0 to |keys|
      invariant |out| == pos && GroupRows(lib, selected, groups, out)
    {
      var row := EvalBuffers(lib, selected, cache[keys[pos]], groups[pos].rows);
      if row.Err? {
        return Err(row.error);
      }
      GroupRowsMore(lib, selected, groups, out, row.value);
      out := out + [row.value];
    }
    return Ok(out);
  }

  /** groupByGroupingIter answers the query: one pass over the rows, then a row for each key. */
  method GroupedRows(lib: Library, checksum: Row -> nat, selected: seq<Expr>, grouping: seq<Expr>, rows: seq<Row>)
      returns (r: Result<seq<Row>, Error>)
    requires grouping != []
    ensures SameOutcome(r, Query(lib, checksum, GroupByPlan(selected, grouping), rows))
  {
    var keys, cache, err := Compute(lib, checksum, selected, grouping, rows);
    ghost var groups := Groups(lib, checksum, grouping, rows);
    if err.Some? {
      if groups.Ok? {
        UnfillableFails(lib, checksum, selected, grouping, rows, groups.value);
      }
      return Err(err.value);
    }
    r := CachedRows(lib, selected, keys, cache, groups.value);
    if r.Ok? {
      QueryYields(lib, checksum, selected, grouping, rows, groups.value, r.value);
    } else {
      ghost var g :| 0 <= g < |groups.value| && GroupRow(lib, selected, groups.value[g].rows).Err?;
      QueryFails(lib, checksum, selected, grouping, rows, groups.value, g);
    }
  }

  /** groupByIter: without grouping there is one set of buffers, which all rows go into. */
  method UngroupedRows(lib: Library, checksum: Row -> nat, selected: seq<Expr>, rows: seq<Row>) returns (r: Result<seq<Row>, Error>)
    ensures SameOutcome(r, Query(lib, checksum, GroupByPlan(selected, []), rows))
  {
    ghost var groups := [Group(0, rows)];
    var buffers := seq(|selected|, j requires 0 <= j < |selected| => NewBuffer(lib, selected[j]));
    for k := 0 to |rows|
      invariant Filled(lib, selected, rows[..k], buffers)
    {
      var updated := UpdateBuffers(lib, selected, buffers, rows[k]);
      assert rows[..k + 1] == rows[..k] + [rows[k]];
      match updated
      case Err(x) =>
        ghost var j: nat :| j < |selected| && UpdateBuffer(lib, selected[j], buffers[j], rows[k]).Err?;
        OneGroupFails(lib, selected, rows, k, j);
        QueryFails(lib, checksum, selected, [], rows, groups, 0);
        return Err(x);
      case Ok(u) =>
        FilledMore(lib, selected, rows[..k], buffers, rows[k], u);
        buffers := u;
    }
    assert rows[..|rows|] == rows;
    var row := EvalBuffers(lib, selected, buffers, rows);
    match row
    case Err(x) =>
      QueryFails(lib, checksum, selected, [], rows, groups, 0);
      r := Err(x);
    case Ok(v) =>
      QueryYields(lib, checksum, selected, [], rows, groups, [v]);
      r := Ok([v]);
  }

  lemma OneGroupFails(lib: Library, selected: seq<Expr>, rows: seq<Row>, k: nat, j: nat)
    requires k < |rows| && j < |selected| && Buffered(lib, selected[j], rows[..k]).Ok?
    requires UpdateBuffer(lib, selected[j], Buffered(lib, selected[j], rows[..k]).value, rows[k]).Err?
    ensures GroupRow(lib, selected, rows).Err?
  {
    assert rows[..k + 1][..k] == rows[..k];
    if Buffered(lib, selected[j], rows).Ok? {
      BufferedPrefix(lib, selected[j], rows, k + 1);
    }
    SelectedIsBuffered(lib, selected[j], rows);
    assert SelectedValues(lib, selected, rows)[j].Err?;
  }
}
