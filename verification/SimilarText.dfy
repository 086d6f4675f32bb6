/**
 Edit distance and name suggestions, from internal/similartext/similartext.go. Strings are
 sequences of bytes there; any element type works here, so the model uses `string`.
 */
module SimilarText {
  import opened Picking

  const DISTANCE_SKIPPED := 3

  function Min(a: int, b: int): int {
    if a < b then a else b
  }

  function Last(s: string): char
    requires s != ""
  {
    s[|s| - 1]
  }

  function Init(s: string): string
    requires s != ""
  {
    s[..|s| - 1]
  }

  /** The cost of turning one character into another. */
  function SubstitutionCost(a: char, b: char): nat {
    if a == b then 0 else 2
  }

  /** The edit distance: insert 1, delete 1, substitute 2. */
  function Distance(s: string, t: string): nat
    decreases |s| + |t|
  {
    if s == "" then |t|
    else if t == "" then |s|
    else
      var delCost := Distance(Init(s), t) + 1;
      var matchSubCost := Distance(Init(s), Init(t)) + SubstitutionCost(Last(s), Last(t));
      var insCost := Distance(s, Init(t)) + 1;
      Min(delCost, Min(matchSubCost, insCost))
  }

  // ---------------------------------------------------------------- the two-row loop

  /** One cell of the matrix: the distance between two prefixes. */
  ghost function Cell(source: string, target: string, i: nat, j: nat): nat
    requires i <= |source| && j <= |target|
  {
    Distance(source[..i], target[..j])
  }

  lemma CellRecurrence(source: string, target: string, i: nat, j: nat)
    requires 1 <= i <= |source| && 1 <= j <= |target|
    ensures Cell(source, target, i, j) ==
            Min(Cell(source, target, i - 1, j) + 1,
                Min(Cell(source, target, i - 1, j - 1) + SubstitutionCost(source[i - 1], target[j - 1]),
                    Cell(source, target, i, j - 1) + 1))
  {
    assert Init(source[..i]) == source[..i - 1] && Init(target[..j]) == target[..j - 1];
  }

  method DistanceForStrings(source: string, target: string) returns (d: int)
    ensures d == Distance(source, target)
  {
    var height, width := |source| + 1, |target| + 1;
    var matrix := new int[2, width];
    matrix[0, 0], matrix[1, 0] := 0, 1;
    var k := 1;
    while k < width
      invariant 1 <= k <= width
      invariant forall j :: 0 <= j < k ==> matrix[0, j] == j
    {
      matrix[0, k] := k;
      k := k + 1;
    }
    assert forall j :: 0 <= j < width ==> matrix[0, j] == Cell(source, target, 0, j);

    var i := 1;
    while i < height
      invariant 1 <= i <= height
      invariant forall r, j :: r == (i - 1) % 2 && 0 <= j < width ==> matrix[r, j] == Cell(source, target, i - 1, j)
    {
      var cur, prev := i % 2, (i - 1) % 2;
      matrix[cur, 0] := i;
      var j := 1;
      while j < width
        invariant 1 <= j <= width && cur != prev && cur in {0, 1} && prev in {0, 1}
        invariant forall x :: 0 <= x < width ==> matrix[prev, x] == Cell(source, target, i - 1, x)
        invariant forall x :: 0 <= x < j ==> matrix[cur, x] == Cell(source, target, i, x)
      {
        var delCost := matrix[prev, j] + 1;
        var matchSubCost := matrix[prev, j - 1];
        if source[i - 1] != target[j - 1] {
          matchSubCost := matchSubCost + 2;
        }
        var insCost := matrix[cur, j - 1] + 1;
        CellRecurrence(source, target, i, j);
        matrix[cur, j] := Min(delCost, Min(matchSubCost, insCost));
        j := j + 1;
      }
      i := i + 1;
    }
    assert source[..|source|] == source && target[..|target|] == target;
    d := matrix[(height - 1) % 2, width - 1];
  }

  // ---------------------------------------------------------------- the distance is a metric

  lemma {:induction false} Symmetric(s: string, t: string)
    ensures Distance(s, t) == Distance(t, s)
    decreases |s| + |t|
  {
    if s != "" && t != "" {
      Symmetric(Init(s), t);
      Symmetric(Init(s), Init(t));
      Symmetric(s, Init(t));
    }
  }

  lemma {:induction false} ZeroIffEqual(s: string, t: string)
    ensures Distance(s, t) == 0 <==> s == t
    decreases |s| + |t|
  {
    if s != "" && t != "" {
      ZeroIffEqual(Init(s), Init(t));
      assert s == Init(s) + [Last(s)] && t == Init(t) + [Last(t)];
    }
  }

  /** Each edit step costs at most one more than the distance it starts from. */
  lemma StepBounds(s: string, u: string)
    ensures s != "" ==> Distance(s, u) <= Distance(Init(s), u) + 1
    ensures u != "" ==> Distance(s, u) <= Distance(s, Init(u)) + 1
    ensures s != "" && u != "" ==>
              Distance(s, u) <= Distance(Init(s), Init(u)) + SubstitutionCost(Last(s), Last(u))
  {
  }

  lemma {:induction false} TriangleInequality(s: string, t: string, u: string)
    ensures Distance(s, u) <= Distance(s, t) + Distance(t, u)
    decreases |s| + |t| + |u|
  {
    StepBounds(s, u);
    if s != "" && (t == "" || Distance(s, t) == Distance(Init(s), t) + 1) {
      TriangleInequality(Init(s), t, u);
    } else if u != "" && (t == "" || Distance(t, u) == Distance(t, Init(u)) + 1) {
      TriangleInequality(s, t, Init(u));
    } else if t != "" {
      if s == "" || Distance(s, t) == Distance(s, Init(t)) + 1 {
        if u == "" || Distance(t, u) == Distance(Init(t), u) + 1 {
          TriangleInequality(s, Init(t), u);
        } else {
          TriangleInequality(s, Init(t), Init(u));
        }
      } else if u == "" || Distance(t, u) == Distance(Init(t), u) + 1 {
        TriangleInequality(Init(s), Init(t), u);
      } else {
        TriangleInequality(Init(s), Init(t), Init(u));
      }
    }
  }

  // ---------------------------------------------------------------- distance and longest common subsequence

  /** `w` is `s` with some characters left out. */
  ghost predicate Subsequence(w: string, s: string)
    decreases |s|
  {
    if w == "" then true
    else if s == "" then false
    else Subsequence(w, Init(s)) || (Last(w) == Last(s) && Subsequence(Init(w), Init(s)))
  }

  lemma {:induction false} InitSubsequence(w: string, s: string)
    requires w != "" && Subsequence(w, s)
    ensures Subsequence(Init(w), s)
    decreases |s|
  {
    if Subsequence(w, Init(s)) {
      InitSubsequence(w, Init(s));
    } else if Init(w) != "" {
      InitSubsequence(Init(w), Init(s));
      assert Subsequence(Init(w), Init(s));
    }
  }

  /** A longest string that is a subsequence of both. */
  ghost function LongestCommon(s: string, t: string): (w: string)
    ensures Subsequence(w, s) && Subsequence(w, t)
    decreases |s| + |t|
  {
    if s == "" || t == "" then ""
    else if Last(s) == Last(t) then
      var w := LongestCommon(Init(s), Init(t)) + [Last(s)];
      assert Init(w) == LongestCommon(Init(s), Init(t));
      w
    else
      var a, b := LongestCommon(Init(s), t), LongestCommon(s, Init(t));
      if |a| >= |b| then a else b
  }

  lemma {:induction false} NoLongerCommon(s: string, t: string, w: string)
    requires Subsequence(w, s) && Subsequence(w, t)
    ensures |w| <= |LongestCommon(s, t)|
    decreases |s| + |t|
  {
    if s != "" && t != "" && w != "" {
      InitSubsequence(w, s);
      InitSubsequence(w, t);
      if Last(s) == Last(t) {
        if Subsequence(w, Init(s)) {
          InitSubsequence(w, Init(s));
        }
        if Subsequence(w, Init(t)) {
          InitSubsequence(w, Init(t));
        }
        NoLongerCommon(Init(s), Init(t), Init(w));
      } else if Subsequence(w, Init(s)) {
        NoLongerCommon(Init(s), t, w);
      } else {
        NoLongerCommon(s, Init(t), w);
      }
    }
  }

  lemma {:induction false} DistanceToInit(t: string)
    requires t != ""
    ensures Distance(t, Init(t)) == 1
  {
    ZeroIffEqual(t, Init(t));
    ZeroIffEqual(Init(t), Init(t));
    StepBounds(t, Init(t));
  }

  /** Dropping the last character changes a distance by at most one. */
  lemma Neighbours(s: string, t: string)
    requires t != ""
    ensures Distance(s, Init(t)) <= Distance(s, t) + 1
  {
    TriangleInequality(s, t, Init(t));
    DistanceToInit(t);
  }

  /** The edit distance counts the characters outside a longest common subsequence. */
  lemma {:induction false} DistanceIsLongestCommon(s: string, t: string)
    ensures Distance(s, t) == |s| + |t| - 2 * |LongestCommon(s, t)|
    decreases |s| + |t|
  {
    if s != "" && t != "" {
      DistanceIsLongestCommon(Init(s), Init(t));
      DistanceIsLongestCommon(Init(s), t);
      DistanceIsLongestCommon(s, Init(t));
      Neighbours(Init(s), t);
      Symmetric(s, Init(t));
      Symmetric(Init(s), Init(t));
      Neighbours(Init(t), s);
      StepBounds(Init(s), t);
    }
  }

  // ---------------------------------------------------------------- suggestions

  /** The names at a distance from `src`, in order. */
  function AtDistance(names: seq<string>, src: string, d: int): seq<string> {
    if names == [] then []
    else
      var before := AtDistance(names[..|names| - 1], src, d);
      if Distance(names[|names| - 1], src) == d then before + [names[|names| - 1]] else before
  }

  /** They are picked out of the names: in their order, and as often as they stand there. */
  lemma {:induction false} AtDistancePicks(names: seq<string>, src: string, d: int)
    ensures Picked(names, n => Distance(n, src) == d, AtDistance(names, src, d))
  {
    var keep := n => Distance(n, src) == d;
    if names == [] {
      PicksNone(keep);
    } else {
      var k := |names| - 1;
      AtDistancePicks(names[..k], src, d);
      PicksMore(names[..k], keep, AtDistance(names[..k], src, d), names[k]);
      assert names[..k] + [names[k]] == names;
    }
  }

  function Join(parts: seq<string>, sep: string): string {
    if parts == [] then "" else if |parts| == 1 then parts[0] else parts[0] + sep + Join(parts[1..], sep)
  }

  /** Joining puts the separator between each part and the next. */
  lemma {:induction false} JoinIs(parts: seq<string>, part: string, sep: string)
    ensures Join(parts + [part], sep) == if parts == [] then part else Join(parts, sep) + sep + part
  {
    var all := parts + [part];
    if parts != [] {
      JoinIs(parts[1..], part, sep);
      assert all[1..] == parts[1..] + [part];
      if |parts| > 1 {
        assert parts[0] + sep + (Join(parts[1..], sep) + sep + part) == parts[0] + sep + Join(parts[1..], sep) + sep + part;
      }
    }
  }

  ghost predicate NoneClose(names: seq<string>, src: string) {
    forall n :: n in names ==> Distance(n, src) >= DISTANCE_SKIPPED
  }

  /** `d` is the smallest distance of a name, and below the limit. */
  ghost predicate Nearest(names: seq<string>, src: string, d: int) {
    && 0 <= d < DISTANCE_SKIPPED
    && (forall n :: n in names ==> d <= Distance(n, src))
    && (exists n :: n in names && Distance(n, src) == d)
  }

  /** The match map holds, for each distance below the limit, the names at that distance. */
  ghost predicate Buckets(matches: map<int, seq<string>>, names: seq<string>, src: string) {
    forall d :: 0 <= d < DISTANCE_SKIPPED ==>
      AtDistance(names, src, d) == if d in matches then matches[d] else []
  }

  lemma NearestStep(names: seq<string>, src: string, name: string, d: int)
    requires if d == -1 then NoneClose(names, src) else Nearest(names, src, d)
    ensures var dist := Distance(name, src);
            var d' := if dist < DISTANCE_SKIPPED && (d == -1 || dist < d) then dist else d;
            if d' == -1 then NoneClose(names + [name], src) else Nearest(names + [name], src, d')
  {
    assert name in names + [name];
    if d != -1 {
      var n :| n in names && Distance(n, src) == d;
      assert n in names + [name];
    }
  }

  lemma BucketsStep(matches: map<int, seq<string>>, names: seq<string>, src: string, name: string)
    requires Buckets(matches, names, src)
    ensures var dist := Distance(name, src);
            var bucket := (if dist in matches then matches[dist] else []) + [name];
            Buckets(if dist < DISTANCE_SKIPPED then matches[dist := bucket] else matches, names + [name], src)
  {
    assert (names + [name])[..|names|] == names;
  }

  /**
   Find suggests exactly the names at the smallest distance below three, in their given order,
   and nothing when no name is that close or there is nothing to compare with.
   */
  method Find(names: seq<string>, src: string) returns (r: string)
    ensures r == "" <==> src == "" || NoneClose(names, src)
    ensures r != "" ==>
              exists d :: && Nearest(names, src, d)
                          && r == ", maybe you mean " + Join(AtDistance(names, src, d), " or ") + "?"
                          && Picked(names, n => Distance(n, src) == d, AtDistance(names, src, d))
  {
    if |src| == 0 {
      return "";
    }
    var minDistance := -1;
    var matchMap: map<int, seq<string>> := map[];
    for i := 0 to |names|
      invariant if minDistance == -1 then NoneClose(names[..i], src) else Nearest(names[..i], src, minDistance)
      invariant matchMap != map[] <==> minDistance != -1
      invariant minDistance != -1 ==> minDistance in matchMap
      invariant Buckets(matchMap, names[..i], src)
    {
      var name := names[i];
      var dist := DistanceForStrings(name, src);
      assert names[..i + 1] == names[..i] + [name];
      NearestStep(names[..i], src, name, minDistance);
      BucketsStep(matchMap, names[..i], src, name);
      if dist >= DISTANCE_SKIPPED {
        continue;
      }
      if minDistance == -1 || dist < minDistance {
        minDistance := dist;
      }
      matchMap := matchMap[dist := (if dist in matchMap then matchMap[dist] else []) + [name]];
    }
    assert names[..|names|] == names;
    if |matchMap| == 0 {
      return "";
    }
    assert Nearest(names, src, minDistance);
    AtDistancePicks(names, src, minDistance);
    r := ", maybe you mean " + Join(matchMap[minDistance], " or ") + "?";
  }
}
