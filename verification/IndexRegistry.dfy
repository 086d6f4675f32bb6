/** The registry of driver indexes: which can be added, and which one serves a list of expressions, from sql/index_registry.go. */
module IndexRegistry {
  import opened Wrappers

  // ---------------------------------------------------------------- matching lists of expressions

  /** The items that are not marked. */
  ghost function Unmarked(b: seq<string>, visited: seq<bool>): multiset<string>
    requires |b| == |visited|
  {
    if b == [] then multiset{}
    else
      var n := |b| - 1;
      Unmarked(b[..n], visited[..n]) + if visited[n] then multiset{} else multiset{b[n]}
  }

  lemma {:induction false} MarkOne(b: seq<string>, visited: seq<bool>, j: nat)
    requires |b| == |visited| && j < |b| && !visited[j]
    ensures Unmarked(b, visited) == Unmarked(b, visited[j := true]) + multiset{b[j]}
    decreases |b|
  {
    var n, marked := |b| - 1, visited[j := true];
    if j < n {
      MarkOne(b[..n], visited[..n], j);
      assert marked[..n] == visited[..n][j := true] && marked[n] == visited[n];
    } else {
      assert marked[..n] == visited[..n];
    }
  }

  ghost predicate Left(b: seq<string>, visited: seq<bool>, x: string)
    requires |b| == |visited|
  {
    exists j :: 0 <= j < |b| && !visited[j] && b[j] == x
  }

  lemma LeftMore(b: seq<string>, visited: seq<bool>, x: string)
    requires |b| == |visited| && b != []
    ensures var n := |b| - 1;
            Left(b, visited, x) <==> Left(b[..n], visited[..n], x) || (!visited[n] && b[n] == x)
  {
    var n := |b| - 1;
    if Left(b[..n], visited[..n], x) {
      var j :| 0 <= j < n && !visited[..n][j] && b[..n][j] == x;
      assert !visited[j] && b[j] == x;
    }
    if Left(b, visited, x) {
      var j :| 0 <= j < |b| && !visited[j] && b[j] == x;
      if j < n {
        assert !visited[..n][j] && b[..n][j] == x;
      }
    }
  }

  lemma {:induction false} UnmarkedHas(b: seq<string>, visited: seq<bool>, x: string)
    requires |b| == |visited|
    ensures x in Unmarked(b, visited) <==> Left(b, visited, x)
  {
    if b != [] {
      UnmarkedHas(b[..|b| - 1], visited[..|b| - 1], x);
      LeftMore(b, visited, x);
    }
  }

  lemma {:induction false} NoneMarked(b: seq<string>, visited: seq<bool>)
    requires |b| == |visited| && forall j :: 0 <= j < |b| ==> !visited[j]
    ensures Unmarked(b, visited) == multiset(b)
  {
    if b != [] {
      var n := |b| - 1;
      NoneMarked(b[..n], visited[..n]);
      assert b == b[..n] + [b[n]];
    }
  }

  /** Marks the first item of b that equals va and is not marked yet. */
  method Mark(va: string, b: seq<string>, visited: array<bool>) returns (found: bool)
    requires visited.Length == |b|
    modifies visited
    ensures found ==> old(Unmarked(b, visited[..])) == Unmarked(b, visited[..]) + multiset{va}
    ensures !found ==> va !in Unmarked(b, visited[..]) && visited[..] == old(visited[..])
  {
    for j := 0 to |b|
      invariant visited[..] == old(visited[..])
      invariant forall k :: 0 <= k < j ==> visited[k] || b[k] != va
    {
      if !visited[j] && va == b[j] {
        MarkOne(b, visited[..], j);
        visited[j] := true;
        assert visited[..] == old(visited[..])[j := true];
        return true;
      }
    }
    UnmarkedHas(b, visited[..], va);
    return false;
  }

  lemma TakeOne(a: seq<string>, i: nat)
    requires i < |a|
    ensures multiset(a[..i + 1]) == multiset(a[..i]) + multiset{a[i]}
  {
    assert a[..i + 1] == a[..i] + [a[i]];
  }

  lemma NotIncluded(a: seq<string>, b: seq<string>, i: nat, rest: multiset<string>)
    requires i < |a| && rest + multiset(a[..i]) == multiset(b) && a[i] !in rest
    ensures !(multiset(a) <= multiset(b))
  {
    TakeOne(a, i);
    assert a == a[..i + 1] + a[i + 1..];
    assert multiset(a)[a[i]] >= multiset(a[..i + 1])[a[i]] > multiset(b)[a[i]];
  }

  /** Whether a can be found in b, each item of b used once at most: taking the first that is left never goes wrong. */
  method ExprListsMatch(a: seq<string>, b: seq<string>) returns (r: bool)
    ensures r <==> multiset(a) <= multiset(b)
  {
    var visited := new bool[|b|](_ => false);
    NoneMarked(b, visited[..]);
    for i := 0 to |a|
      invariant Unmarked(b, visited[..]) + multiset(a[..i]) == multiset(b)
    {
      TakeOne(a, i);
      var found := Mark(a[i], b, visited);
      if !found {
        NotIncluded(a, b, i, Unmarked(b, visited[..]));
        return false;
      }
    }
    assert a[..|a|] == a;
    return true;
  }

  /** Whether the lists have the same items, each as often. */
  method ExprListsEqual(a: seq<string>, b: seq<string>) returns (r: bool)
    ensures r <==> multiset(a) == multiset(b)
  {
    if |a| != |b| {
      assert |multiset(a)| != |multiset(b)|;
      return false;
    }
    r := ExprListsMatch(a, b);
    if r {
      SameSize(a, b);
    }
  }

  /** Items found in a list of the same length are all of it. */
  lemma SameSize(a: seq<string>, b: seq<string>)
    requires multiset(a) <= multiset(b)
    ensures multiset(a) == multiset(b) <==> |a| == |b|
  {
    var rest := multiset(b) - multiset(a);
    assert multiset(b) == multiset(a) + rest && |multiset(b)| == |multiset(a)| + |rest|;
    assert |rest| == 0 <==> rest == multiset{};
  }

  // ---------------------------------------------------------------- the registry

  datatype Index = Index(database: string, id: string, expressions: seq<string>)

  datatype Key = Key(database: string, id: string)

  datatype Status = NotReady | Ready | Outdated

  datatype Error = IDAlreadyRegistered(id: string) | ExpressionAlreadyRegistered(expressions: seq<string>)

  function KeyOf(idx: Index): Key {
    Key(idx.database, idx.id)
  }

  /** An index of the same database has the ID, or the same expressions. */
  predicate Clashes(a: Index, b: Index) {
    a.database == b.database && (a.id == b.id || multiset(a.expressions) == multiset(b.expressions))
  }

  ghost predicate Addable(indexes: map<Key, Index>, idx: Index) {
    forall k :: k in indexes ==> !Clashes(indexes[k], idx)
  }

  /** Indexes are filed under their own key, and no two of them clash. */
  ghost predicate Consistent(indexes: map<Key, Index>) {
    && (forall k :: k in indexes ==> KeyOf(indexes[k]) == k)
    && (forall k, l :: k in indexes && l in indexes && k != l ==> !Clashes(indexes[k], indexes[l]))
  }

  /** So no two indexes of one database share an ID, and no two have the same expressions, each as often. */
  lemma ConsistentMeans(indexes: map<Key, Index>, k: Key, l: Key)
    requires Consistent(indexes) && k in indexes && l in indexes && indexes[k].database == indexes[l].database
    requires indexes[k].id == indexes[l].id || multiset(indexes[k].expressions) == multiset(indexes[l].expressions)
    ensures k == l && indexes[k] == indexes[l]
  {
  }

  /** The order lists every index once. */
  ghost predicate Listed(indexes: map<Key, Index>, order: seq<Key>) {
    && (forall k :: k in indexes <==> k in order)
    && (forall i, j :: 0 <= i < j < |order| ==> order[i] != order[j])
  }

  /** Filing an index keeps the registry consistent exactly when it clashes with none at that moment. */
  lemma FilingKeepsIff(indexes: map<Key, Index>, idx: Index)
    requires Consistent(indexes)
    ensures KeyOf(idx) !in indexes && Consistent(indexes[KeyOf(idx) := idx]) <==> Addable(indexes, idx)
  {
    var after := indexes[KeyOf(idx) := idx];
    if KeyOf(idx) in indexes {
      assert Clashes(indexes[KeyOf(idx)], idx);
    } else if Consistent(after) {
      forall k | k in indexes ensures !Clashes(indexes[k], idx) {
        assert after[k] == indexes[k] && after[KeyOf(idx)] == idx;
      }
    }
  }

  class Registry {
    var indexes: map<Key, Index>
    var indexOrder: seq<Key>
    var statuses: map<Key, Status>
    var refCounts: map<Key, int>

    /** No two indexes of one database share an ID or a multiset of expressions. */
    ghost predicate Valid()
      reads this
    {
      Consistent(indexes) && Listed(indexes, indexOrder)
    }

    constructor ()
      ensures Valid() && indexes == map[]
    {
      indexes, indexOrder, statuses, refCounts := map[], [], map[], map[];
    }

    /** Goes through the indexes in any order. */
    method ValidateIndexToAdd(idx: Index) returns (err: Option<Error>)
      ensures err.None? <==> Addable(indexes, idx)
      ensures err.Some? ==> err.value == IDAlreadyRegistered(idx.id) || err.value == ExpressionAlreadyRegistered(idx.expressions)
      ensures err == Some(IDAlreadyRegistered(idx.id)) ==>
                exists k :: k in indexes && indexes[k].database == idx.database && indexes[k].id == idx.id
      ensures err == Some(ExpressionAlreadyRegistered(idx.expressions)) ==>
                exists k :: k in indexes && indexes[k].database == idx.database
                            && multiset(indexes[k].expressions) == multiset(idx.expressions)
    {
      var todo := indexes.Keys;
      while todo != {}
        invariant todo <= indexes.Keys
        invariant forall k :: k in indexes && k !in todo ==> !Clashes(indexes[k], idx)
      {
        var k :| k in todo;
        todo := todo - {k};
        var i := indexes[k];
        if i.database != idx.database {
          continue;
        }
        if i.id == idx.id {
          return Some(IDAlreadyRegistered(idx.id));
        }
        var equal := ExprListsEqual(i.expressions, idx.expressions);
        if equal {
          return Some(ExpressionAlreadyRegistered(idx.expressions));
        }
      }
      return None;
    }

    method AddIndex(idx: Index) returns (err: Option<Error>)
      requires Valid()
      modifies this
      ensures Valid()
      ensures err.None? <==> Addable(old(indexes), idx)
      ensures err.Some? ==> unchanged(this)
      ensures err.Some? ==> err.value == IDAlreadyRegistered(idx.id) || err.value == ExpressionAlreadyRegistered(idx.expressions)
      ensures err.None? ==>
                && indexes == old(indexes)[KeyOf(idx) := idx] && indexOrder == old(indexOrder) + [KeyOf(idx)]
                && statuses == old(statuses)[KeyOf(idx) := NotReady] && refCounts == old(refCounts)
    {
      err := ValidateIndexToAdd(idx);
      if err.Some? {
        return;
      }
      FilingKeepsIff(indexes, idx);
      statuses := statuses[KeyOf(idx) := NotReady];
      indexes := indexes[KeyOf(idx) := idx];
      indexOrder := indexOrder + [KeyOf(idx)];
    }

    /** What the goroutine of AddIndex does once the index has been created. */
    method Created(idx: Index)
      requires Valid()
      modifies this`statuses
      ensures Valid() && statuses == old(statuses)[KeyOf(idx) := Ready]
    {
      statuses := statuses[KeyOf(idx) := Ready];
    }

    predicate CanUseIndex(idx: Index)
      reads this
    {
      KeyOf(idx) in statuses && statuses[KeyOf(idx)] == Ready
    }

    /** The index serves the expressions: all of its own are among them. */
    ghost predicate Serves(idx: Index, db: string, expressions: seq<string>)
      reads this
    {
      CanUseIndex(idx) && idx.database == db && multiset(idx.expressions) <= multiset(expressions)
    }

    /** The index is the n-th registered, and none registered before it serves the expressions. */
    ghost predicate First(db: string, expressions: seq<string>, n: int, idx: Index)
      requires Valid()
      reads this
    {
      && 0 <= n < |indexOrder| && idx == indexes[indexOrder[n]]
      && forall m :: 0 <= m < n ==> !Serves(indexes[indexOrder[m]], db, expressions)
    }

    /** The n-th index registered is ready and on exactly these expressions, and none before it is on some of them. */
    ghost predicate FirstExact(db: string, expressions: seq<string>, n: int)
      requires Valid()
      reads this
    {
      && 0 <= n < |indexOrder| && First(db, expressions, n, indexes[indexOrder[n]])
      && Serves(indexes[indexOrder[n]], db, expressions)
      && multiset(indexes[indexOrder[n]].expressions) == multiset(expressions)
    }

    /** The index registered first among those that serve the expressions, which is retained. */
    method IndexByExpression(db: string, expressions: seq<string>) returns (r: Option<Index>)
      requires Valid()
      modifies this`refCounts
      ensures r.None? ==> refCounts == old(refCounts) && forall k :: k in indexes ==> !Serves(indexes[k], db, expressions)
      ensures r.Some? ==> Serves(r.value, db, expressions) && exists n :: First(db, expressions, n, r.value)
      ensures r.Some? && multiset(r.value.expressions) == multiset(expressions) <==> exists n :: FirstExact(db, expressions, n)
      ensures r.Some? ==>
                var key := Key(db, r.value.id);
                refCounts == old(refCounts)[key := (if key in old(refCounts) then old(refCounts)[key] else 0) + 1]
    {
      for n := 0 to |indexOrder|
        invariant refCounts == old(refCounts)
        invariant forall m :: 0 <= m < n ==> !Serves(indexes[indexOrder[m]], db, expressions)
      {
        var idx := indexes[indexOrder[n]];
        if CanUseIndex(idx) && idx.database == db {
          var matches := ExprListsMatch(idx.expressions, expressions);
          if matches {
            var key := Key(db, idx.id);
            refCounts := refCounts[key := (if key in refCounts then refCounts[key] else 0) + 1];
            assert First(db, expressions, n, idx);
            assert multiset(idx.expressions) == multiset(expressions) ==> FirstExact(db, expressions, n);
            return Some(idx);
          }
        }
      }
      return None;
    }
  }

  /**
   Two calls of AddIndex that overlap, so that both validate before either files its index, leave a
   consistent registry that lists each index once exactly when the two do not clash with each other:
   nothing keeps the second from being filed. With the same ID it takes the place of the first, and
   the order lists the key twice.
   */
  lemma OverlappingAdds(indexes: map<Key, Index>, order: seq<Key>, a: Index, b: Index)
    requires Consistent(indexes) && Listed(indexes, order) && Addable(indexes, a) && Addable(indexes, b)
    ensures var after := indexes[KeyOf(a) := a][KeyOf(b) := b];
            Consistent(after) && Listed(after, order + [KeyOf(a)] + [KeyOf(b)]) <==> !Clashes(a, b)
  {
    FilingKeepsIff(indexes, a);
    var first := indexes[KeyOf(a) := a];
    var order2 := order + [KeyOf(a)] + [KeyOf(b)];
    FilingKeepsIff(first, b);
    if KeyOf(a) == KeyOf(b) {
      assert order2[|order|] == order2[|order| + 1];
    } else if Clashes(a, b) {
      assert Clashes(first[KeyOf(a)], b);
    } else {
      assert Addable(first, b);
    }
  }

  /** A registry with one index, ready, which answers for two expressions although it has only one of them. */
  method IndexForSomeOnly() returns (r: Option<Index>)
    ensures r == Some(Index("db", "i", ["x"])) && multiset(r.value.expressions) != multiset(["x", "y"])
  {
    var registry := new Registry();
    var idx := Index("db", "i", ["x"]);
    var err := registry.AddIndex(idx);
    registry.Created(idx);
    assert registry.indexes == map[KeyOf(idx) := idx];
    assert multiset(["x", "y"]) == multiset(["x"]) + multiset(["y"]) && multiset(["x", "y"])["y"] == 1;
    r := registry.IndexByExpression("db", ["x", "y"]);
    assert registry.Serves(registry.indexes[KeyOf(idx)], "db", ["x", "y"]);
    ghost var n :| registry.First("db", ["x", "y"], n, r.value);
    assert registry.indexOrder[n] in registry.indexes;
  }
}
