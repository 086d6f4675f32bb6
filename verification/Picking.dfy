/** What it means to pick some elements out of a list: which ones, in which order and how often. */
module Picking {

  predicate Ascending(at: seq<nat>, n: nat) {
    && (forall i :: 0 <= i < |at| ==> at[i] < n)
    && (forall i, j :: 0 <= i < j < |at| ==> at[i] < at[j])
  }

  /** The positions are exactly those that `keep` marks. */
  predicate Kept<T>(all: seq<T>, keep: T -> bool, at: seq<nat>) {
    forall p :: 0 <= p < |all| ==> (p in at <==> keep(all[p]))
  }

  /** `at` lists in ascending order exactly the positions that `keep` marks, and `picked` the elements there. */
  ghost predicate Picks<T>(all: seq<T>, keep: T -> bool, at: seq<nat>, picked: seq<T>) {
    Ascending(at, |all|) && Kept(all, keep, at) && Elements(all, at, picked)
  }

  ghost predicate Elements<T>(all: seq<T>, at: seq<nat>, picked: seq<T>)
    requires Ascending(at, |all|)
  {
    |picked| == |at| && forall i :: 0 <= i < |at| ==> picked[i] == all[at[i]]
  }

  /** The elements that `keep` marks, each as often and in the order in which they stand in the list. */
  ghost predicate Picked<T>(all: seq<T>, keep: T -> bool, picked: seq<T>) {
    exists at: seq<nat> :: Picks(all, keep, at, picked)
  }

  lemma PicksNone<T>(keep: T -> bool)
    ensures Picked([], keep, [])
  {
    var all: seq<T> := [];
    assert Picks(all, keep, [], []);
  }

  lemma KeptMore<T>(all: seq<T>, keep: T -> bool, at: seq<nat>, x: T)
    requires Kept(all, keep, at) && Ascending(at, |all|)
    ensures Kept(all + [x], keep, if keep(x) then at + [|all|] else at)
  {
    var at' := if keep(x) then at + [|all|] else at;
    forall p | 0 <= p < |all + [x]|
      ensures p in at' <==> keep((all + [x])[p])
    {
      if p < |all| {
        assert p in at' <==> p in at;
      } else if keep(x) {
        assert at'[|at|] == p;
      }
    }
  }

  lemma AscendingMore(at: seq<nat>, n: nat)
    requires Ascending(at, n)
    ensures Ascending(at, n + 1) && Ascending(at + [n], n + 1)
  {
  }

  lemma ElementsMore<T>(all: seq<T>, at: seq<nat>, picked: seq<T>, x: T)
    requires Ascending(at, |all|) && Elements(all, at, picked)
    ensures Ascending(at, |all + [x]|) && Elements(all + [x], at, picked)
    ensures Ascending(at + [|all|], |all + [x]|) && Elements(all + [x], at + [|all|], picked + [x])
  {
    AscendingMore(at, |all|);
  }

  lemma PicksMore<T>(all: seq<T>, keep: T -> bool, picked: seq<T>, x: T)
    requires Picked(all, keep, picked)
    ensures Picked(all + [x], keep, if keep(x) then picked + [x] else picked)
  {
    var at: seq<nat> :| Picks(all, keep, at, picked);
    KeptMore(all, keep, at, x);
    ElementsMore(all, at, picked, x);
    if keep(x) {
      assert Picks(all + [x], keep, at + [|all|], picked + [x]);
    } else {
      assert Picks(all + [x], keep, at, picked);
    }
  }

  /** What is picked is what is in the list and kept. */
  lemma PickedMembers<T>(all: seq<T>, keep: T -> bool, picked: seq<T>, x: T)
    requires Picked(all, keep, picked)
    ensures x in picked <==> x in all && keep(x)
  {
    var at: seq<nat> :| Picks(all, keep, at, picked);
    if x in picked {
      var i :| 0 <= i < |picked| && picked[i] == x;
      assert at[i] in at && all[at[i]] == x;
    }
    if x in all && keep(x) {
      var p :| 0 <= p < |all| && all[p] == x;
      var i :| 0 <= i < |at| && at[i] == p;
      assert picked[i] == x;
    }
  }

  /** The numbers below n. */
  function Upto(n: nat): seq<nat> {
    seq(n, i requires 0 <= i < n => i)
  }

  lemma UptoMore(n: nat)
    ensures Upto(n + 1) == Upto(n) + [n]
  {
  }

  lemma UptoHas(n: nat, i: nat)
    ensures i in Upto(n) <==> i < n
  {
    if i < n {
      assert Upto(n)[i] == i;
    }
  }
}
