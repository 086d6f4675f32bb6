/** Inserting, deleting and updating the rows of an in-memory table, from memory/table.go. */
module TableEditor {
  import opened Wrappers
  import opened Expressions
  import opened Picking
  import opened TableReads

  type Partitions = map<string, seq<Row>>

  /** `accepts` is the column's check of a value. */
  datatype Column = Column(name: string, primaryKey: bool, accepts: Value -> bool)

  datatype Error = UnexpectedRowLength(expected: nat, actual: nat)
                 | InvalidType(value: Value)
                 | UniqueKeyViolation(columns: seq<nat>)
                 | DeleteRowNotFound

  // ---------------------------------------------------------------- the rows of a table

  predicate Distinct(keys: seq<string>) {
    forall i, j :: 0 <= i < j < |keys| ==> keys[i] != keys[j]
  }

  /** All rows of the table, as often as they occur. */
  ghost function Bag(p: Partitions, keys: seq<string>): multiset<Row>
    requires forall k :: k in keys ==> k in p
  {
    if keys == [] then multiset{} else multiset(p[keys[0]]) + Bag(p, keys[1..])
  }

  lemma {:induction false} BagElsewhere(p: Partitions, keys: seq<string>, k: string, rows: seq<Row>)
    requires (forall x :: x in keys ==> x in p) && k !in keys
    ensures Bag(p[k := rows], keys) == Bag(p, keys)
  {
    if keys != [] {
      assert keys[0] in keys;
      BagElsewhere(p, keys[1..], k, rows);
    }
  }

  /** Replacing one partition replaces its rows. */
  lemma {:induction false} BagReplaced(p: Partitions, keys: seq<string>, k: string, rows: seq<Row>)
    requires (forall x :: x in keys ==> x in p) && k in keys && Distinct(keys)
    ensures multiset(p[k]) <= Bag(p, keys)
    ensures Bag(p[k := rows], keys) == Bag(p, keys) - multiset(p[k]) + multiset(rows)
  {
    if keys[0] == k {
      BagElsewhere(p, keys[1..], k, rows);
    } else {
      BagReplaced(p, keys[1..], k, rows);
    }
  }

  lemma {:induction false} BagHas(p: Partitions, keys: seq<string>, r: Row)
    requires forall x :: x in keys ==> x in p
    ensures r in Bag(p, keys) <==> exists k :: k in keys && r in p[k]
  {
    if keys != [] {
      BagHas(p, keys[1..], r);
      assert keys == [keys[0]] + keys[1..];
    }
  }

  lemma RemovedOne(s: seq<Row>, i: nat)
    requires i < |s|
    ensures multiset(s[..i] + s[i + 1..]) == multiset(s) - multiset{s[i]}
  {
    assert s == s[..i] + [s[i]] + s[i + 1..];
  }

  lemma ReplacedOne(s: seq<Row>, i: nat, r: Row)
    requires i < |s|
    ensures multiset(s[i := r]) == multiset(s) - multiset{s[i]} + multiset{r}
  {
    assert s == s[..i] + [s[i]] + s[i + 1..];
    assert s[i := r] == s[..i] + [r] + s[i + 1..];
  }

  // ---------------------------------------------------------------- primary keys

  function NamesOf(schema: seq<Column>): seq<string> {
    seq(|schema|, i requires 0 <= i < |schema| => schema[i].name)
  }

  /** The columns of the primary key, found by name. */
  function PkColumns(fold: string -> string, schema: seq<Column>, n: nat): (pk: seq<nat>)
    requires n <= |schema|
    ensures forall i :: 0 <= i < |pk| ==> pk[i] < |schema|
  {
    if n == 0 then []
    else
      var rest := PkColumns(fold, schema, n - 1);
      if schema[n - 1].primaryKey then
        assert NamesOf(schema)[n - 1] == schema[n - 1].name;
        rest + [IndexOf(fold, NamesOf(schema), schema[n - 1].name).value]
      else rest
  }

  function KeyOf(pk: seq<nat>, row: Row): Row
    requires forall i :: 0 <= i < |pk| ==> pk[i] < |row|
  {
    seq(|pk|, i requires 0 <= i < |pk| => row[pk[i]])
  }

  predicate Sized(pk: seq<nat>, width: nat, rows: multiset<Row>) {
    && (forall i :: 0 <= i < |pk| ==> pk[i] < width)
    && (forall r :: r in rows ==> |r| == width)
  }

  /** No two rows share a primary key; without primary key columns there is nothing to share. */
  ghost predicate UniqueKeys(pk: seq<nat>, width: nat, rows: multiset<Row>)
    requires Sized(pk, width, rows)
  {
    pk != [] ==>
      && (forall r :: r in rows ==> rows[r] == 1)
      && (forall r, s :: r in rows && s in rows && KeyOf(pk, r) == KeyOf(pk, s) ==> r == s)
  }

  /** No row has the key of the given one. */
  ghost predicate NewKey(pk: seq<nat>, width: nat, rows: multiset<Row>, row: Row)
    requires Sized(pk, width, rows) && |row| == width
  {
    pk != [] ==> forall r :: r in rows ==> KeyOf(pk, r) != KeyOf(pk, row)
  }

  /** No two columns have the same name, whatever the case. */
  predicate DistinctNames(fold: string -> string, schema: seq<Column>) {
    forall i, j :: 0 <= i < j < |schema| ==> fold(schema[i].name) != fold(schema[j].name)
  }

  function Flagged(schema: seq<Column>): nat -> bool {
    (c: nat) => c < |schema| && schema[c].primaryKey
  }

  lemma FoundByName(fold: string -> string, schema: seq<Column>, c: nat)
    requires DistinctNames(fold, schema) && c < |schema|
    ensures IndexOf(fold, NamesOf(schema), schema[c].name) == Some(c)
  {
    assert NamesOf(schema)[c] == schema[c].name;
    var at := IndexOf(fold, NamesOf(schema), schema[c].name);
    assert fold(schema[at.value].name) == fold(schema[c].name);
  }

  lemma PkMore(fold: string -> string, schema: seq<Column>, n: nat)
    requires DistinctNames(fold, schema) && n < |schema|
    ensures PkColumns(fold, schema, n + 1) == PkColumns(fold, schema, n) + if schema[n].primaryKey then [n] else []
  {
    FoundByName(fold, schema, n);
  }

  lemma FlaggedMore(schema: seq<Column>, n: nat, all: seq<nat>, pk: seq<nat>, more: seq<nat>)
    requires Picked<nat>(Upto(n), Flagged(schema), pk) && n < |schema|
    requires all == Upto(n) + [n] && more == pk + if schema[n].primaryKey then [n] else []
    ensures Picked<nat>(all, Flagged(schema), more)
  {
    PicksMore<nat>(Upto(n), Flagged(schema), pk, n);
    assert pk + [] == pk;
  }

  /** Where column names are distinct, the primary key is exactly the flagged columns, in ascending order. */
  lemma {:induction false} PkIsFlagged(fold: string -> string, schema: seq<Column>, n: nat)
    requires n <= |schema| && DistinctNames(fold, schema)
    ensures Picked<nat>(Upto(n), Flagged(schema), PkColumns(fold, schema, n))
  {
    if n == 0 {
      PicksNone<nat>(Flagged(schema));
    } else {
      PkIsFlagged(fold, schema, n - 1);
      PkMore(fold, schema, n - 1);
      UptoMore(n - 1);
      FlaggedMore(schema, n - 1, Upto(n), PkColumns(fold, schema, n - 1), PkColumns(fold, schema, n));
    }
  }

  /** The key columns are the flagged ones. */
  lemma InPkIff(fold: string -> string, schema: seq<Column>, c: nat)
    requires DistinctNames(fold, schema)
    ensures c in PkColumns(fold, schema, |schema|) <==> c < |schema| && schema[c].primaryKey
  {
    PkIsFlagged(fold, schema, |schema|);
    PickedMembers<nat>(Upto(|schema|), Flagged(schema), PkColumns(fold, schema, |schema|), c);
    UptoHas(|schema|, c);
  }

  predicate HasKey(schema: seq<Column>) {
    exists c :: 0 <= c < |schema| && schema[c].primaryKey
  }

  /** The rows have the same value in every column that is flagged as part of the primary key. */
  predicate SameKey(schema: seq<Column>, r: Row, s: Row)
    requires |r| == |s| == |schema|
  {
    forall c :: 0 <= c < |schema| && schema[c].primaryKey ==> r[c] == s[c]
  }

  lemma SameKeyIff(fold: string -> string, schema: seq<Column>, r: Row, s: Row)
    requires DistinctNames(fold, schema) && |r| == |s| == |schema|
    ensures var pk := PkColumns(fold, schema, |schema|);
            (pk != [] <==> HasKey(schema)) && (KeyOf(pk, r) == KeyOf(pk, s) <==> SameKey(schema, r, s))
  {
    var pk := PkColumns(fold, schema, |schema|);
    KeyExists(fold, schema);
    if KeyOf(pk, r) == KeyOf(pk, s) {
      forall c | 0 <= c < |schema| && schema[c].primaryKey
        ensures r[c] == s[c]
      {
        InPkIff(fold, schema, c);
        var i :| 0 <= i < |pk| && pk[i] == c;
        assert KeyOf(pk, r)[i] == KeyOf(pk, s)[i];
      }
    }
    if SameKey(schema, r, s) {
      forall i | 0 <= i < |pk|
        ensures KeyOf(pk, r)[i] == KeyOf(pk, s)[i]
      {
        InPkIff(fold, schema, pk[i]);
      }
    }
  }

  lemma KeyExists(fold: string -> string, schema: seq<Column>)
    requires DistinctNames(fold, schema)
    ensures PkColumns(fold, schema, |schema|) != [] <==> HasKey(schema)
  {
    var pk := PkColumns(fold, schema, |schema|);
    if pk != [] {
      InPkIff(fold, schema, pk[0]);
    }
    if c :| 0 <= c < |schema| && schema[c].primaryKey {
      InPkIff(fold, schema, c);
    }
  }

  /** Some stored row agrees with the given one in every flagged column. */
  ghost predicate Clashes(schema: seq<Column>, rows: multiset<Row>, row: Row)
    requires |row| == |schema|
  {
    HasKey(schema) && exists r :: r in rows && |r| == |schema| && SameKey(schema, r, row)
  }

  /** Where column names are distinct, a key is new exactly when no stored row agrees with it in the flagged columns. */
  lemma NewKeyIff(fold: string -> string, schema: seq<Column>, rows: multiset<Row>, row: Row)
    requires DistinctNames(fold, schema) && Sized(PkColumns(fold, schema, |schema|), |schema|, rows) && |row| == |schema|
    ensures NewKey(PkColumns(fold, schema, |schema|), |schema|, rows, row) <==> !Clashes(schema, rows, row)
  {
    var pk := PkColumns(fold, schema, |schema|);
    SameKeyIff(fold, schema, row, row);
    forall r | r in rows
      ensures KeyOf(pk, r) == KeyOf(pk, row) <==> SameKey(schema, r, row)
    {
      SameKeyIff(fold, schema, r, row);
    }
  }

  /** Two stored rows that agree in every flagged column are one row, counted once. */
  ghost predicate OneRowPerKey(schema: seq<Column>, rows: multiset<Row>) {
    HasKey(schema) ==>
      && (forall r :: r in rows ==> rows[r] == 1)
      && (forall r, s :: r in rows && s in rows && |r| == |s| == |schema| && SameKey(schema, r, s) ==> r == s)
  }

  /** Unique keys mean just that, where column names are distinct. */
  lemma UniqueMeans(fold: string -> string, schema: seq<Column>, rows: multiset<Row>)
    requires DistinctNames(fold, schema) && Sized(PkColumns(fold, schema, |schema|), |schema|, rows)
    requires UniqueKeys(PkColumns(fold, schema, |schema|), |schema|, rows)
    ensures OneRowPerKey(schema, rows)
  {
    var pk := PkColumns(fold, schema, |schema|);
    KeyExists(fold, schema);
    if HasKey(schema) {
      forall r, s | r in rows && s in rows && SameKey(schema, r, s)
        ensures r == s
      {
        SameKeyIff(fold, schema, r, s);
      }
    }
  }

  lemma InsertKeepsUnique(pk: seq<nat>, width: nat, rows: multiset<Row>, row: Row)
    requires Sized(pk, width, rows) && UniqueKeys(pk, width, rows)
    requires |row| == width && NewKey(pk, width, rows, row)
    ensures Sized(pk, width, rows + multiset{row}) && UniqueKeys(pk, width, rows + multiset{row})
  {
  }

  lemma RemoveKeepsUnique(pk: seq<nat>, width: nat, rows: multiset<Row>, row: Row)
    requires Sized(pk, width, rows) && UniqueKeys(pk, width, rows)
    ensures Sized(pk, width, rows - multiset{row}) && UniqueKeys(pk, width, rows - multiset{row})
  {
    forall r | r in rows - multiset{row} ensures r in rows {}
  }

  /** Without the row that has the key, the key is new. */
  lemma RemovedKeyIsNew(pk: seq<nat>, width: nat, rows: multiset<Row>, was: Row, now: Row)
    requires Sized(pk, width, rows) && UniqueKeys(pk, width, rows) && was in rows
    requires |now| == width && (KeyOf(pk, was) == KeyOf(pk, now) || NewKey(pk, width, rows, now))
    ensures Sized(pk, width, rows - multiset{was}) && NewKey(pk, width, rows - multiset{was}, now)
  {
    forall r | r in rows - multiset{was} ensures r in rows && (pk != [] ==> r != was) {}
  }

  /** Every row has a value for each column, and primary keys are unique across the partitions. */
  ghost predicate Sound(pk: seq<nat>, width: nat, keys: seq<string>, p: Partitions) {
    && Distinct(keys)
    && (forall k :: k in p <==> k in keys)
    && Sized(pk, width, Bag(p, keys))
    && UniqueKeys(pk, width, Bag(p, keys))
  }

  ghost predicate Removed(p: Partitions, q: Partitions, k: string, i: int) {
    k in p && 0 <= i < |p[k]| && q == p[k := p[k][..i] + p[k][i + 1..]]
  }

  ghost predicate Replaced(p: Partitions, q: Partitions, k: string, i: int, now: Row) {
    k in p && 0 <= i < |p[k]| && q == p[k := p[k][i := now]]
  }

  lemma AppendedBag(p: Partitions, keys: seq<string>, k: string, row: Row)
    requires (forall x :: x in keys ==> x in p) && k in keys && Distinct(keys)
    ensures Bag(p[k := p[k] + [row]], keys) == Bag(p, keys) + multiset{row}
  {
    BagReplaced(p, keys, k, p[k] + [row]);
    assert multiset(p[k] + [row]) == multiset(p[k]) + multiset{row};
  }

  lemma RemovedBag(p: Partitions, q: Partitions, keys: seq<string>, k: string, i: nat)
    requires (forall x :: x in keys ==> x in p) && k in keys && Distinct(keys) && Removed(p, q, k, i)
    ensures p[k][i] in Bag(p, keys) && Bag(q, keys) == Bag(p, keys) - multiset{p[k][i]}
  {
    BagReplaced(p, keys, k, q[k]);
    RemovedOne(p[k], i);
    assert p[k][i] in multiset(p[k]);
  }

  lemma ReplacedBag(p: Partitions, q: Partitions, keys: seq<string>, k: string, i: nat, now: Row)
    requires (forall x :: x in keys ==> x in p) && k in keys && Distinct(keys) && Replaced(p, q, k, i, now)
    ensures Bag(q, keys) == Bag(p, keys) - multiset{p[k][i]} + multiset{now}
  {
    BagReplaced(p, keys, k, q[k]);
    ReplacedOne(p[k], i, now);
    assert p[k][i] in multiset(p[k]);
  }

  lemma AppendIsSound(pk: seq<nat>, width: nat, keys: seq<string>, p: Partitions, k: string, row: Row)
    requires Sound(pk, width, keys, p) && k in keys && |row| == width && NewKey(pk, width, Bag(p, keys), row)
    ensures Sound(pk, width, keys, p[k := p[k] + [row]])
    ensures Bag(p[k := p[k] + [row]], keys) == Bag(p, keys) + multiset{row}
  {
    InsertKeepsUnique(pk, width, Bag(p, keys), row);
    AppendedBag(p, keys, k, row);
  }

  lemma RemoveIsSound(pk: seq<nat>, width: nat, keys: seq<string>, p: Partitions, q: Partitions, k: string, i: nat)
    requires Sound(pk, width, keys, p) && Removed(p, q, k, i)
    ensures Sound(pk, width, keys, q) && p[k][i] in Bag(p, keys)
    ensures Bag(q, keys) == Bag(p, keys) - multiset{p[k][i]}
  {
    RemovedBag(p, q, keys, k, i);
    RemoveKeepsUnique(pk, width, Bag(p, keys), p[k][i]);
  }

  lemma ReplaceIsSound(pk: seq<nat>, width: nat, keys: seq<string>, p: Partitions, q: Partitions, k: string, i: nat, now: Row)
    requires Sound(pk, width, keys, p) && Replaced(p, q, k, i, now) && |now| == width && p[k][i] in Bag(p, keys)
    requires KeyOf(pk, p[k][i]) == KeyOf(pk, now) || NewKey(pk, width, Bag(p, keys), now)
    ensures Sound(pk, width, keys, q)
    ensures Bag(q, keys) == Bag(p, keys) - multiset{p[k][i]} + multiset{now}
  {
    var rows, was := Bag(p, keys), p[k][i];
    RemovedKeyIsNew(pk, width, rows, was, now);
    RemoveKeepsUnique(pk, width, rows, was);
    InsertKeepsUnique(pk, width, rows - multiset{was}, now);
    ReplacedBag(p, q, keys, k, i, now);
  }

  // ---------------------------------------------------------------- the editor

  predicate Accepted(schema: seq<Column>, row: Row) {
    |row| == |schema| && forall i :: 0 <= i < |row| ==> schema[i].accepts(row[i])
  }

  /** checkRow. */
  method CheckRow(schema: seq<Column>, row: Row) returns (err: Option<Error>)
    ensures err.None? <==> Accepted(schema, row)
    ensures |row| != |schema| <==> err == Some(UnexpectedRowLength(|schema|, |row|))
    ensures err.Some? && |row| == |schema| ==>
              exists i :: 0 <= i < |row| && Accepted(schema[..i], row[..i]) && !schema[i].accepts(row[i]) && err.value == InvalidType(row[i])
  {
    if |row| != |schema| {
      return Some(UnexpectedRowLength(|schema|, |row|));
    }
    for i := 0 to |row|
      invariant Accepted(schema[..i], row[..i])
    {
      if !schema[i].accepts(row[i]) {
        return Some(InvalidType(row[i]));
      }
      assert schema[..i + 1] == schema[..i] + [schema[i]] && row[..i + 1] == row[..i] + [row[i]];
    }
    assert schema[..|row|] == schema && row[..|row|] == row;
    return None;
  }

  class Table {
    const fold: string -> string
    const schema: seq<Column>
    const keys: seq<string>
    var partitions: Partitions
    var insert: nat

    function Pk(): seq<nat> {
      PkColumns(fold, schema, |schema|)
    }

    ghost function Rows(): multiset<Row>
      requires forall k :: k in keys ==> k in partitions
      reads this
    {
      Bag(partitions, keys)
    }

    /** The cursor is in range, every row has a value for each column, and primary keys are unique. */
    ghost predicate Valid()
      reads this
    {
      insert < |keys| && Sound(Pk(), |schema|, keys, partitions)
    }

    /** Where column names are distinct, no two rows of the table agree in every column of the primary key. */
    lemma KeysAreUnique()
      requires Valid() && DistinctNames(fold, schema)
      ensures OneRowPerKey(schema, Rows())
    {
      UniqueMeans(fold, schema, Rows());
    }

    constructor (fold: string -> string, schema: seq<Column>, keys: seq<string>)
      requires keys != [] && Distinct(keys)
      ensures Valid() && Rows() == multiset{} && insert == 0
      ensures this.fold == fold && this.schema == schema && this.keys == keys
    {
      this.fold := fold;
      this.schema := schema;
      this.keys := keys;
      partitions := map k | k in keys :: [];
      insert := 0;
      new;
      EmptyBag(partitions, keys);
    }

    /** Whether a stored row is the one an edit looks for: by key, if it has one, or as a whole. */
    predicate Matches(byKey: bool, sought: Row, r: Row) {
      || (byKey && Pk() != [] && |sought| == |r| == |schema| && KeyOf(Pk(), r) == KeyOf(Pk(), sought))
      || r == sought
    }

    /** Where column names are distinct: a row that agrees in every flagged column, if there is one, or the row itself. */
    lemma MatchesIff(sought: Row, r: Row)
      requires DistinctNames(fold, schema) && |sought| == |r| == |schema|
      ensures Matches(true, sought, r) <==> (HasKey(schema) && SameKey(schema, r, sought)) || r == sought
    {
      SameKeyIff(fold, schema, r, sought);
    }

    predicate NoMatch(byKey: bool, sought: Row, rows: seq<Row>) {
      forall i :: 0 <= i < |rows| ==> !Matches(byKey, sought, rows[i])
    }

    method FindIn(byKey: bool, sought: Row, rows: seq<Row>) returns (at: Option<nat>)
      ensures at.None? ==> NoMatch(byKey, sought, rows)
      ensures at.Some? ==> at.value < |rows| && Matches(byKey, sought, rows[at.value]) && NoMatch(byKey, sought, rows[..at.value])
    {
      for i := 0 to |rows|
        invariant NoMatch(byKey, sought, rows[..i])
      {
        if Matches(byKey, sought, rows[i]) {
          return Some(i);
        }
      }
      return None;
    }

    /** Looks through the partitions in any order, and through each from its start. */
    method Find(byKey: bool, sought: Row) returns (at: Option<(string, nat)>)
      requires Valid()
      ensures at.None? ==> forall r :: r in Rows() ==> !Matches(byKey, sought, r)
      ensures at.Some? ==>
                var (k, i) := at.value;
                && k in partitions && i < |partitions[k]|
                && partitions[k][i] in Rows()
                && Matches(byKey, sought, partitions[k][i])
    {
      var todo := partitions.Keys;
      while todo != {}
        invariant todo <= partitions.Keys
        invariant forall k :: k in partitions && k !in todo ==> NoMatch(byKey, sought, partitions[k])
      {
        var k :| k in todo;
        var i := FindIn(byKey, sought, partitions[k]);
        if i.Some? {
          BagHas(partitions, keys, partitions[k][i.value]);
          return Some((k, i.value));
        }
        todo := todo - {k};
      }
      forall r | r in Rows() ensures !Matches(byKey, sought, r) {
        BagHas(partitions, keys, r);
      }
      return None;
    }

    /** None: no stored row has the key of the given one. */
    method CheckUniquenessConstraints(row: Row) returns (err: Option<Error>)
      requires Valid() && |row| == |schema|
      ensures err == if NewKey(Pk(), |schema|, Rows(), row) then None else Some(UniqueKeyViolation(Pk()))
      ensures DistinctNames(fold, schema) ==> (err.Some? <==> Clashes(schema, Rows(), row))
    {
      err := None;
      if DistinctNames(fold, schema) {
        NewKeyIff(fold, schema, Rows(), row);
      }
      if Pk() != [] {
        var at := Find(true, row);
        if at.Some? {
          return Some(UniqueKeyViolation(Pk()));
        }
      }
    }

    method Insert(row: Row) returns (err: Option<Error>)
      requires Valid()
      modifies this
      ensures Valid()
      ensures err.None? <==> Accepted(schema, row) && NewKey(Pk(), |schema|, old(Rows()), row)
      ensures DistinctNames(fold, schema) ==> (err.None? <==> Accepted(schema, row) && !Clashes(schema, old(Rows()), row))
      ensures err.Some? ==> unchanged(this)
      ensures err.Some? && Accepted(schema, row) ==> err.value == UniqueKeyViolation(Pk())
      ensures err.None? ==> Rows() == old(Rows()) + multiset{row}
      ensures err.None? ==> insert == if old(insert) + 1 == |keys| then 0 else old(insert) + 1
      ensures err.None? ==> var k := keys[old(insert)]; partitions == old(partitions)[k := old(partitions)[k] + [row]]
    {
      err := CheckRow(schema, row);
      if err.Some? {
        return;
      }
      err := CheckUniquenessConstraints(row);
      if err.Some? {
        return;
      }
      var key := keys[insert];
      insert := insert + 1;
      if insert == |keys| {
        insert := 0;
      }
      AppendIsSound(Pk(), |schema|, keys, partitions, key, row);
      partitions := partitions[key := partitions[key] + [row]];
    }

    /** `(k, i)` is where the deleted row was. */
    method Delete(row: Row) returns (err: Option<Error>, ghost k: string, ghost i: nat)
      requires Valid()
      modifies this`partitions
      ensures Valid()
      ensures err.None? <==> Accepted(schema, row) && exists r :: r in old(Rows()) && Matches(true, row, r)
      ensures err.Some? ==> unchanged(this)
      ensures err.Some? && Accepted(schema, row) ==> err.value == DeleteRowNotFound
      ensures err.None? ==>
                && Removed(old(partitions), partitions, k, i)
                && var gone := old(partitions)[k][i];
                  gone in old(Rows()) && Matches(true, row, gone) && Rows() == old(Rows()) - multiset{gone}
    {
      k, i := "", 0;
      err := CheckRow(schema, row);
      if err.Some? {
        return;
      }
      var at := Find(true, row);
      if at.None? {
        err := Some(DeleteRowNotFound);
        return;
      }
      var (key, pos) := at.value;
      k, i := key, pos;
      var rows := partitions[key];
      partitions := partitions[key := rows[..pos] + rows[pos + 1..]];
      RemoveIsSound(Pk(), |schema|, keys, old(partitions), partitions, k, i);
    }

    /** `(k, i)` is where the updated row is. */
    method Update(oldRow: Row, newRow: Row) returns (err: Option<Error>, ghost k: string, ghost i: nat)
      requires Valid()
      modifies this`partitions
      ensures Valid()
      ensures err.None? <==> Accepted(schema, oldRow) && Accepted(schema, newRow)
                             && (KeyOf(Pk(), oldRow) == KeyOf(Pk(), newRow) || NewKey(Pk(), |schema|, old(Rows()), newRow))
      ensures DistinctNames(fold, schema) && Accepted(schema, oldRow) && Accepted(schema, newRow) ==>
                (err.None? <==> SameKey(schema, oldRow, newRow) || !Clashes(schema, old(Rows()), newRow))
      ensures err.Some? && Accepted(schema, oldRow) && Accepted(schema, newRow) ==> err.value == UniqueKeyViolation(Pk())
      ensures err.Some? || oldRow !in old(Rows()) ==> unchanged(this)
      ensures err.None? && oldRow in old(Rows()) ==>
                && Replaced(old(partitions), partitions, k, i, newRow)
                && old(partitions)[k][i] == oldRow
                && Rows() == old(Rows()) - multiset{oldRow} + multiset{newRow}
    {
      k, i := "", 0;
      err := CheckRow(schema, oldRow);
      if err.Some? {
        return;
      }
      err := CheckRow(schema, newRow);
      if err.Some? {
        return;
      }
      if DistinctNames(fold, schema) {
        SameKeyIff(fold, schema, oldRow, newRow);
        NewKeyIff(fold, schema, Rows(), newRow);
      }
      if KeyOf(Pk(), oldRow) != KeyOf(Pk(), newRow) {
        err := CheckUniquenessConstraints(newRow);
        if err.Some? {
          return;
        }
      }
      k, i := ReplaceFirst(oldRow, newRow);
    }

    /** The loop of Update: puts the new row in the place of one that equals the old row, if there is one. */
    method ReplaceFirst(oldRow: Row, newRow: Row) returns (ghost k: string, ghost i: nat)
      requires Valid() && |oldRow| == |newRow| == |schema|
      requires KeyOf(Pk(), oldRow) == KeyOf(Pk(), newRow) || NewKey(Pk(), |schema|, Rows(), newRow)
      modifies this`partitions
      ensures Valid()
      ensures oldRow !in old(Rows()) ==> unchanged(this)
      ensures oldRow in old(Rows()) ==>
                && Replaced(old(partitions), partitions, k, i, newRow)
                && old(partitions)[k][i] == oldRow
                && Rows() == old(Rows()) - multiset{oldRow} + multiset{newRow}
    {
      k, i := "", 0;
      var at := Find(false, oldRow);
      if at.Some? {
        var (key, pos) := at.value;
        k, i := key, pos;
        assert partitions[key][pos] == oldRow;
        partitions := partitions[key := partitions[key][pos := newRow]];
        ReplaceIsSound(Pk(), |schema|, keys, old(partitions), partitions, k, i, newRow);
      } else {
        assert Matches(false, oldRow, oldRow);
      }
    }
  }

  lemma {:induction false} EmptyBag(p: Partitions, keys: seq<string>)
    requires forall k :: k in keys ==> k in p && p[k] == []
    ensures Bag(p, keys) == multiset{}
  {
    if keys != [] {
      assert keys[0] in keys;
      EmptyBag(p, keys[1..]);
    }
  }

  /** A row that stands in two places is counted twice. */
  lemma TwoPlaces(p: Partitions, keys: seq<string>, k: string, i: nat, l: string, j: nat)
    requires (forall x :: x in keys ==> x in p) && Distinct(keys) && k in keys && l in keys
    requires i < |p[k]| && j < |p[l]| && (k, i) != (l, j) && p[k][i] == p[l][j]
    ensures Bag(p, keys)[p[k][i]] >= 2
  {
    var q := p[k := p[k][..i] + p[k][i + 1..]];
    RemovedBag(p, q, keys, k, i);
    if k == l {
      StaysBehind(p[k], i, j);
    }
    assert p[k][i] in q[l];
    BagHas(q, keys, p[k][i]);
  }

  lemma StaysBehind(s: seq<Row>, i: nat, j: nat)
    requires i < |s| && j < |s| && i != j
    ensures s[j] in s[..i] + s[i + 1..]
  {
    assert (s[..i] + s[i + 1..])[if j < i then j else j - 1] == s[j];
  }

  /**
   A primary key has one place in the table, so what Delete and Update do to the partitions does
   not depend on the order in which they look through them.
   */
  lemma KeyHasOnePlace(pk: seq<nat>, width: nat, keys: seq<string>, p: Partitions, k: string, i: nat, l: string, j: nat)
    requires Sound(pk, width, keys, p) && pk != []
    requires k in p && i < |p[k]| && l in p && j < |p[l]|
    requires |p[k][i]| == |p[l][j]| == width && KeyOf(pk, p[k][i]) == KeyOf(pk, p[l][j])
    ensures (k, i) == (l, j)
  {
    assert p[k][i] in p[k] && p[l][j] in p[l];
    BagHas(p, keys, p[k][i]);
    BagHas(p, keys, p[l][j]);
    if (k, i) != (l, j) {
      TwoPlaces(p, keys, k, i, l, j);
    }
  }

  /** Update reports success for a row that is not there, and changes nothing. */
  method UpdateOfAbsentRow(fold: string -> string) returns (t: Table, err: Option<Error>)
    ensures fresh(t) && t.Valid() && err.None? && t.Rows() == multiset{}
  {
    t := new Table(fold, [Column("a", false, _ => true)], ["0"]);
    ghost var k, i;
    err, k, i := t.Update([Int(1)], [Int(2)]);
    assert KeyOf(t.Pk(), [Int(1)]) == KeyOf(t.Pk(), [Int(2)]);
  }
}
