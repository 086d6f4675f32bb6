/**
 Reading an in-memory table: partitions, index lookups, pushed filters and projections, from
 memory/table.go, memory/unmergeable_index.go and sql/table_iter.go. The partitions do not
 change while they are read.
 */
module TableScan {
  import opened Wrappers
  import opened Expressions
  import opened IndexLookups

  /** A table with what was pushed down to it. `schema` lists the column names, `fold` is the case folding of names. */
  datatype Table = Table(
    fold: string -> string,
    keys: seq<string>,
    partitions: map<string, seq<Row>>,
    schema: seq<string>,
    columns: seq<nat>,
    filters: seq<Expr>,
    lookup: Option<Lookup>)

  /** What an iterator's Next answers. */
  datatype Step<+T> = Item(item: T) | EOF | Fail(error: Error)

  /** The rows an iteration yields, and the error that cuts it short, if any. */
  datatype Stream = Stream(rows: seq<Row>, err: Option<Error>)

  predicate Below(ps: seq<nat>, n: nat) {
    forall i :: 0 <= i < |ps| ==> ps[i] < n
  }

  predicate Fits(columns: seq<nat>, rows: seq<Row>) {
    forall r :: r in rows ==> Below(columns, |r|)
  }

  predicate ValidTable(t: Table) {
    && (t.lookup.Some? ==> WellFormed(t.lookup.value))
    && (forall k :: k in t.partitions ==> Fits(t.columns, t.partitions[k]))
  }

  // ---------------------------------------------------------------- what a read means

  /** sql.EvaluateCondition on a value. */
  predicate Condition(lib: Library, v: Value) {
    match v
    case Null => false
    case Bool(b) => b
    case Int(n) => n != 0
    case Float(r) => r >= 0.5 || r <= -0.5
    case Text(s) => var x := lib.number(s); x.Some? && (x.value >= 1.0 || x.value <= -1.0)
  }

  /** The positions of the rows that satisfy the match expression; every row is evaluated. */
  function Positions(lib: Library, e: Expr, rows: seq<Row>): (r: Result<seq<nat>, Error>)
    ensures r.Ok? ==> Below(r.value, |rows|)
  {
    if rows == [] then Ok([])
    else
      var n := |rows| - 1;
      match Both(Positions(lib, e, rows[..n]), Eval(lib, e, rows[n]))
      case Err(x) => Err(x)
      case Ok((ps, v)) => Ok(if Condition(lib, v) then ps + [n] else ps)
  }

  function RowsAt(rows: seq<Row>, ps: seq<nat>): (r: seq<Row>)
    requires Below(ps, |rows|)
    ensures |r| == |ps| && forall x :: x in r ==> x in rows
  {
    if ps == [] then [] else [rows[ps[0]]] + RowsAt(rows, ps[1..])
  }

  /** Whether a row passes the pushed filters, tried in order. */
  function Passes(lib: Library, filters: seq<Expr>, row: Row): Result<bool, Error> {
    if filters == [] then Ok(true)
    else
      match Eval(lib, filters[0], row)
      case Err(x) => Err(x)
      case Ok(v) => if ConvertToBool(lib, v) == Some(true) then Passes(lib, filters[1..], row) else Ok(false)
  }

  function Project(columns: seq<nat>, row: Row): Row
    requires Below(columns, |row|)
  {
    if columns == [] then row else seq(|columns|, i requires 0 <= i < |columns| => row[columns[i]])
  }

  /** The rows that pass the filters, projected, up to the first filter that fails to evaluate. */
  function Filtered(lib: Library, filters: seq<Expr>, columns: seq<nat>, rows: seq<Row>): Stream
    requires Fits(columns, rows)
  {
    if rows == [] then Stream([], None)
    else
      match Passes(lib, filters, rows[0])
      case Err(x) => Stream([], Some(x))
      case Ok(b) =>
        var rest := Filtered(lib, filters, columns, rows[1..]);
        if b then Stream([Project(columns, rows[0])] + rest.rows, rest.err) else rest
  }

  function Append(a: Stream, b: Stream): Stream {
    if a.err.Some? then a else Stream(a.rows + b.rows, b.err)
  }

  /** The rows of one partition that the lookup selects. */
  function Selected(lib: Library, lookup: Option<Lookup>, rows: seq<Row>): (r: Result<seq<Row>, Error>)
    requires lookup.Some? ==> WellFormed(lookup.value)
    ensures r.Ok? ==> forall x :: x in r.value ==> x in rows
  {
    if lookup.None? then Ok(rows)
    else
      match Positions(lib, ExprOf(lookup.value), rows)
      case Err(x) => Err(x)
      case Ok(ps) => Ok(RowsAt(rows, ps))
  }

  function PartitionStream(lib: Library, t: Table, rows: seq<Row>): Stream
    requires ValidTable(t) && Fits(t.columns, rows)
  {
    match Selected(lib, t.lookup, rows)
    case Err(x) => Stream([], Some(x))
    case Ok(selected) => Filtered(lib, t.filters, t.columns, selected)
  }

  /** The keys Partitions hands out: those of partitions that hold rows. */
  function LiveKeys(t: Table, keys: seq<string>): (r: seq<string>)
    ensures forall k :: k in r ==> k in t.partitions
  {
    if keys == [] then []
    else if keys[0] in t.partitions && t.partitions[keys[0]] != [] then [keys[0]] + LiveKeys(t, keys[1..])
    else LiveKeys(t, keys[1..])
  }

  function KeysStream(lib: Library, t: Table, keys: seq<string>): Stream
    requires ValidTable(t) && forall k :: k in keys ==> k in t.partitions
  {
    if keys == [] then Stream([], None)
    else Append(PartitionStream(lib, t, t.partitions[keys[0]]), KeysStream(lib, t, keys[1..]))
  }

  /** Everything a read of the table yields. */
  function TableStream(lib: Library, t: Table): Stream
    requires ValidTable(t)
  {
    KeysStream(lib, t, LiveKeys(t, t.keys))
  }

  // ---------------------------------------------------------------- the iterators

  /** The positions of the rows a lookup selects, computed when the first one is asked for. */
  class IndexValIter {
    const lib: Library
    const rows: seq<Row>
    const matchExpression: Expr
    var values: seq<nat>
    var i: nat

    ghost predicate Valid()
      reads this
    {
      && i <= |values|
      && (values != [] ==> Positions(lib, matchExpression, rows) == Ok(values))
    }

    ghost function Remaining(): (r: Result<seq<nat>, Error>)
      requires Valid()
      reads this
      ensures r.Ok? ==> Below(r.value, |rows|)
    {
      var all := Positions(lib, matchExpression, rows);
      if all.Ok? then Ok(if values == [] then all.value else all.value[i..]) else all
    }

    constructor (lib: Library, rows: seq<Row>, matchExpression: Expr)
      ensures Valid() && this.rows == rows && this.lib == lib
      ensures Remaining() == Positions(lib, matchExpression, rows)
    {
      this.lib := lib;
      this.rows := rows;
      this.matchExpression := matchExpression;
      values := [];
      i := 0;
    }

    method InitValues() returns (err: Option<Error>)
      requires Valid()
      modifies this`values
      ensures match Positions(lib, matchExpression, rows)
              case Err(x) => err == Some(x)
              case Ok(ps) => err == None && values == ps
    {
      if values == [] {
        var k := 0;
        while k < |rows|
          invariant k <= |rows|
          invariant Positions(lib, matchExpression, rows[..k]) == Ok(values)
        {
          assert rows[..k + 1][..k] == rows[..k];
          var r := Eval(lib, matchExpression, rows[k]);
          if r.Err? {
            PositionsFail(lib, matchExpression, rows, k + 1);
            return Some(r.error);
          }
          if Condition(lib, r.value) {
            values := values + [k];
          }
          k := k + 1;
        }
        assert rows[..|rows|] == rows;
      }
      return None;
    }

    method Next() returns (r: Step<nat>)
      requires Valid()
      modifies this
      ensures match old(Remaining())
              case Err(x) => r == Fail(x)
              case Ok(ps) =>
                && Valid()
                && if ps == [] then r == EOF && Remaining() == Ok([])
                   else r == Item(ps[0]) && Remaining() == Ok(ps[1..])
    {
      var err := InitValues();
      if err.Some? {
        return Fail(err.value);
      }
      if i < |values| {
        r := Item(values[i]);
        i := i + 1;
      } else {
        r := EOF;
      }
    }
  }

  lemma {:induction false} PositionsFail(lib: Library, e: Expr, rows: seq<Row>, k: nat)
    requires k <= |rows| && Positions(lib, e, rows[..k]).Err?
    ensures Positions(lib, e, rows) == Positions(lib, e, rows[..k])
    decreases |rows|
  {
    if k == |rows| {
      assert rows[..k] == rows;
    } else {
      var n := |rows| - 1;
      assert rows[..n][..k] == rows[..k];
      PositionsFail(lib, e, rows[..n], k);
    }
  }

  /** The rows of one partition: those of the index if there is one, filtered and projected. */
  class TableIter {
    const lib: Library
    const columns: seq<nat>
    const filters: seq<Expr>
    const rows: seq<Row>
    const indexValues: IndexValIter?
    var pos: nat

    ghost function Repr(): set<object> {
      if indexValues == null then {this} else {this, indexValues}
    }

    ghost predicate Valid()
      reads Repr()
    {
      && pos <= |rows|
      && Fits(columns, rows)
      && (indexValues != null ==> indexValues.Valid() && indexValues.rows == rows)
    }

    ghost function RowsLeft(): (r: Result<seq<Row>, Error>)
      requires Valid()
      reads Repr()
      ensures r.Ok? ==> forall x :: x in r.value ==> x in rows
    {
      if indexValues == null then Ok(rows[pos..])
      else
        match indexValues.Remaining()
        case Err(x) => Err(x)
        case Ok(ps) => Ok(RowsAt(rows, ps))
    }

    ghost function Remaining(): Stream
      requires Valid()
      reads Repr()
    {
      match RowsLeft()
      case Err(x) => Stream([], Some(x))
      case Ok(rs) => Filtered(lib, filters, columns, rs)
    }

    ghost function Count(): nat
      requires Valid()
      reads Repr()
    {
      if RowsLeft().Ok? then |RowsLeft().value| else 0
    }

    /** PartitionRows. */
    constructor (lib: Library, t: Table, rows: seq<Row>)
      requires ValidTable(t) && Fits(t.columns, rows)
      ensures Valid() && fresh(Repr()) && Remaining() == PartitionStream(lib, t, rows)
    {
      this.lib := lib;
      this.columns := t.columns;
      this.filters := t.filters;
      this.rows := rows;
      pos := 0;
      if t.lookup.Some? {
        var values := new IndexValIter(lib, rows, ExprOf(t.lookup.value));
        indexValues := values;
      } else {
        indexValues := null;
      }
    }

    method GetRow() returns (r: Step<Row>)
      requires Valid()
      modifies Repr()
      ensures match old(RowsLeft())
              case Err(x) => r == Fail(x)
              case Ok(rs) =>
                && Valid()
                && if rs == [] then r == EOF && RowsLeft() == Ok([])
                   else r == Item(rs[0]) && RowsLeft() == Ok(rs[1..])
    {
      if indexValues != null {
        var value := indexValues.Next();
        match value
        case Fail(x) => r := Fail(x);
        case EOF => r := EOF;
        case Item(p) => r := Item(rows[p]);
      } else if pos >= |rows| {
        r := EOF;
      } else {
        r := Item(rows[pos]);
        pos := pos + 1;
      }
    }

    method Next() returns (r: Step<Row>)
      requires Valid()
      modifies Repr()
      ensures Yields(r, old(Remaining()))
      ensures !r.Fail? ==> Valid() && Remaining() == After(old(Remaining()))
      decreases Count()
    {
      var got := GetRow();
      match got
      case Fail(x) => return Fail(x);
      case EOF => return EOF;
      case Item(row) =>
        ghost var rs := old(RowsLeft()).value;
        assert row == rs[0] && row in rs;
        var k := 0;
        while k < |filters|
          invariant k <= |filters| && Valid() && RowsLeft() == Ok(rs[1..])
          invariant Passes(lib, filters, row) == Passes(lib, filters[k..], row)
        {
          var result := Eval(lib, filters[k], row);
          if result.Err? {
            return Fail(result.error);
          }
          if ConvertToBool(lib, result.value) != Some(true) {
            r := Next();
            return;
          }
          assert filters[k..][1..] == filters[k + 1..];
          k := k + 1;
        }
        r := Item(Project(columns, row));
    }
  }

  /** The answer an iteration with this much left to yield gives. */
  predicate Yields(r: Step<Row>, left: Stream) {
    if left.rows != [] then r == Item(left.rows[0])
    else if left.err.Some? then r == Fail(left.err.value)
    else r == EOF
  }

  /** What is left once that answer is given. */
  function After(left: Stream): Stream {
    if left.rows != [] then Stream(left.rows[1..], left.err) else left
  }

  class PartitionIter {
    const keys: seq<string>
    var pos: nat

    ghost predicate Valid()
      reads this
    {
      pos <= |keys|
    }

    constructor (keys: seq<string>)
      ensures Valid() && this.keys == keys && pos == 0
    {
      this.keys := keys;
      pos := 0;
    }

    method Next() returns (r: Step<string>)
      requires Valid()
      modifies this
      ensures Valid()
      ensures if old(pos) < |keys| then r == Item(keys[old(pos)]) && pos == old(pos) + 1 else r == EOF && pos == old(pos)
    {
      if pos >= |keys| {
        return EOF;
      }
      r := Item(keys[pos]);
      pos := pos + 1;
    }
  }

  /** Partitions. */
  method Partitions(t: Table) returns (keys: seq<string>)
    ensures keys == LiveKeys(t, t.keys)
  {
    keys := [];
    var i := 0;
    while i < |t.keys|
      invariant i <= |t.keys| && keys + LiveKeys(t, t.keys[i..]) == LiveKeys(t, t.keys)
    {
      var k := t.keys[i];
      assert t.keys[i..][1..] == t.keys[i + 1..];
      if k in t.partitions && t.partitions[k] != [] {
        keys := keys + [k];
      }
      i := i + 1;
    }
  }

  /** The rows of a table, partition after partition. */
  class TableRowIter {
    const lib: Library
    const table: Table
    const partitions: PartitionIter
    var partition: Option<string>
    var rows: TableIter?

    ghost function Repr(): set<object>
      reads this
    {
      {this, partitions} + if rows == null then {} else rows.Repr()
    }

    ghost predicate Valid()
      reads Repr()
    {
      && ValidTable(table)
      && partitions.Valid()
      && (forall k :: k in partitions.keys ==> k in table.partitions)
      && (partition.Some? <==> rows != null)
      && (rows != null ==> rows.Valid())
    }

    ghost function Remaining(): Stream
      requires Valid()
      reads Repr()
    {
      var later := KeysStream(lib, table, partitions.keys[partitions.pos..]);
      if rows == null then later else Append(rows.Remaining(), later)
    }

    constructor (lib: Library, table: Table, partitions: PartitionIter)
      requires ValidTable(table) && partitions.Valid() && partitions.pos == 0
      requires forall k :: k in partitions.keys ==> k in table.partitions
      ensures Valid() && fresh(Repr() - {partitions}) && this.partitions == partitions
      ensures Remaining() == KeysStream(lib, table, partitions.keys)
    {
      this.lib := lib;
      this.table := table;
      this.partitions := partitions;
      partition := None;
      rows := null;
      new;
      assert partitions.keys[0..] == partitions.keys;
    }

    /** Makes sure that a partition is open, and says whether one is. */
    method Open() returns (open: bool)
      requires Valid()
      modifies this, partitions
      ensures Valid() && fresh(Repr() - old(Repr())) && Remaining() == old(Remaining())
      ensures open <==> rows != null
      ensures !open ==> Remaining() == Stream([], None)
      ensures open ==> |partitions.keys| - partitions.pos <= old(|partitions.keys| - partitions.pos)
      ensures open && old(rows) == null ==> |partitions.keys| - partitions.pos < old(|partitions.keys| - partitions.pos)
    {
      if partition.None? {
        var p := partitions.Next();
        if p.EOF? {
          return false;
        }
        partition := Some(p.item);
        rows := new TableIter(lib, table, table.partitions[partition.value]);
      }
      open := true;
    }

    /** The next row of the open partition, which is left when it has none. */
    method NextOfPartition() returns (r: Step<Row>)
      requires Valid() && rows != null
      modifies this, rows.Repr()
      ensures unchanged(partitions) && Repr() <= old(Repr())
      ensures r.EOF? ==> rows == null && Valid() && Remaining() == old(Remaining())
      ensures !r.EOF? ==> Yields(r, old(Remaining()))
      ensures r.Item? ==> Valid() && Remaining() == After(old(Remaining()))
    {
      ghost var left, later := rows.Remaining(), KeysStream(lib, table, partitions.keys[partitions.pos..]);
      assert this !in rows.Repr() && partitions !in rows.Repr();
      r := rows.Next();
      assert KeysStream(lib, table, partitions.keys[partitions.pos..]) == later;
      AppendYields(r, left, later);
      if r.EOF? {
        partition := None;
        rows := null;
      }
    }

    method Next() returns (r: Step<Row>)
      requires Valid()
      modifies Repr()
      ensures fresh(Repr() - old(Repr()))
      ensures Yields(r, old(Remaining()))
      ensures !r.Fail? ==> Valid() && Remaining() == After(old(Remaining()))
      decreases |partitions.keys| - partitions.pos, rows != null
    {
      var open := Open();
      if !open {
        return EOF;
      }
      r := NextOfPartition();
      if r.EOF? {
        r := Next();
      }
    }
  }

  /** The first of two iterations answers for both until it is at its end. */
  lemma AppendYields(r: Step<Row>, a: Stream, b: Stream)
    requires Yields(r, a)
    ensures r.EOF? ==> Append(a, b) == b
    ensures !r.EOF? ==> Yields(r, Append(a, b)) && After(Append(a, b)) == Append(After(a), b)
  {
    if r.EOF? {
      assert [] + b.rows == b.rows;
    } else if r.Item? && a.err.None? {
      assert (a.rows + b.rows)[1..] == a.rows[1..] + b.rows;
    }
  }

  lemma AfterItem(rows: seq<Row>, left: Stream)
    requires left.rows != []
    ensures rows + [left.rows[0]] + After(left).rows == rows + left.rows
  {
  }

  /** Collects what an iterator has left: its rows, and the error that stops it, if one does. */
  method Drain(iter: TableRowIter) returns (rows: seq<Row>, err: Option<Error>)
    requires iter.Valid()
    modifies iter.Repr()
    ensures Stream(rows, err) == old(iter.Remaining())
  {
    ghost var all := iter.Remaining();
    ghost var left := all;
    rows := [];
    while true
      invariant iter.Valid() && fresh(iter.Repr() - old(iter.Repr()))
      invariant left == iter.Remaining() && all == Stream(rows + left.rows, left.err)
      decreases |left.rows|
    {
      var r := iter.Next();
      match r
      case EOF => return rows, None;
      case Fail(x) => return rows, Some(x);
      case Item(row) =>
        AfterItem(rows, left);
        rows := rows + [row];
        left := After(left);
    }
  }

  /** Reads a whole table. */
  method Read(lib: Library, t: Table) returns (rows: seq<Row>, err: Option<Error>)
    requires ValidTable(t)
    ensures Stream(rows, err) == TableStream(lib, t)
  {
    var keys := Partitions(t);
    var partitions := new PartitionIter(keys);
    var iter := new TableRowIter(lib, t, partitions);
    rows, err := Drain(iter);
  }
}
