/** What the texts, numbers and names of the SET type stand for, without the maps and loops that compute it. */
module SetMeaning {
  import opened Wrappers
  import opened Picking
  import opened SetType

  // ---------------------------------------------------------------- numbers

  function Pow2(n: nat): nat {
    if n == 0 then 1 else 2 * Pow2(n - 1)
  }

  lemma {:induction false} Pow2Positive(n: nat)
    ensures Pow2(n) > 0
  {
    if n > 0 {
      Pow2Positive(n - 1);
    }
  }

  /** Bit `i` counts 2 to the `i`: setting it adds that much, unless it is there. */
  lemma {:induction false} OrBitAdds(x: nat, i: nat)
    ensures OrBit(x, i) == if Bit(x, i) then x else x + Pow2(i)
  {
    if i > 0 {
      OrBitAdds(x / 2, i - 1);
    }
  }

  /** A field is too large for n members exactly when it is 2 to the n or more. */
  lemma {:induction false} AllBitsIs(n: nat)
    ensures AllBits(n) == Pow2(n) - 1
  {
    if n > 0 {
      AllBitsIs(n - 1);
    }
  }

  lemma {:induction false} BitLenIs(x: nat)
    ensures x < Pow2(BitLen(x)) && (x > 0 ==> Pow2(BitLen(x) - 1) <= x)
  {
    if x > 0 {
      BitLenIs(x / 2);
    }
  }

  // ---------------------------------------------------------------- names

  predicate Spaces(s: string) {
    forall i :: 0 <= i < |s| ==> s[i] == ' '
  }

  predicate EndsInSpace(s: string) {
    s != "" && s[|s| - 1] == ' '
  }

  /** `r` is the text without the spaces at its end. */
  predicate Trims(s: string, r: string) {
    r <= s && Spaces(s[|r|..]) && !EndsInSpace(r)
  }

  lemma {:induction false} TrimRightIs(s: string)
    ensures Trims(s, TrimRight(s))
  {
    if EndsInSpace(s) {
      var n := |s| - 1;
      TrimRightIs(s[..n]);
      var r := TrimRight(s);
      assert s[|r|..] == s[..n][|r|..] + [' '];
    } else {
      assert s[|s|..] == [];
    }
  }

  /** More of the text than what trimming leaves ends in a space. */
  lemma LongerEndsInSpace(s: string, r: string, r': string)
    requires Trims(s, r) && r' <= s && |r| < |r'|
    ensures EndsInSpace(r')
  {
    var n := |r'| - 1;
    assert s[|r|..][n - |r|] == s[n] == r'[n];
  }

  lemma TrimsOnce(s: string, r: string, r': string)
    requires Trims(s, r) && Trims(s, r')
    ensures r == r'
  {
    if |r| < |r'| {
      LongerEndsInSpace(s, r, r');
    } else if |r'| < |r| {
      LongerEndsInSpace(s, r', r);
    }
  }

  /** Two texts are the same name: they are equal, or, unless the type is binary, equal but for case and spaces at the end. */
  ghost predicate SameName(fold: string -> string, binary: bool, a: string, b: string) {
    if binary then a == b
    else exists a', b' :: Trims(a, a') && Trims(b, b') && fold(a') == fold(b')
  }

  lemma KeyIff(fold: string -> string, binary: bool, a: string, b: string)
    ensures Key(fold, binary, a) == Key(fold, binary, b) <==> SameName(fold, binary, a, b)
  {
    TrimRightIs(a);
    TrimRightIs(b);
    if !binary {
      if a', b' :| Trims(a, a') && Trims(b, b') && fold(a') == fold(b') {
        TrimsOnce(a, a', TrimRight(a));
        TrimsOnce(b, b', TrimRight(b));
      }
    }
  }

  /** A text stands for a member exactly when it is the same name. */
  lemma LookupIff(t: SetType, members: seq<string>, val: string, i: nat)
    requires Holds(t, members)
    ensures Lookup(t, val) == Some(i) <==> i < |members| && SameName(t.fold, t.binary, val, members[i])
  {
    if i < |members| {
      KeyIff(t.fold, t.binary, val, members[i]);
      LookupMember(t, members, i);
    }
    var k := Key(t.fold, t.binary, val);
    if k in t.compareToOriginal {
      var j :| 0 <= j < |members| && members[j] == t.compareToOriginal[k];
      LookupMember(t, members, j);
    }
  }

  /** A definition is accepted exactly when it has one to sixty-four values without commas, no two of which are the same name. */
  lemma DefinableIff(fold: string -> string, binary: bool, values: seq<string>)
    ensures Definable(fold, binary, values) <==>
            && 1 <= |values| <= 64
            && (forall i :: 0 <= i < |values| ==> ',' !in values[i])
            && (forall i, j :: 0 <= i < j < |values| ==> !SameName(fold, binary, values[i], values[j]))
  {
    forall i, j | 0 <= i < j < |values|
      ensures Key(fold, binary, values[i]) == Key(fold, binary, values[j]) <==> SameName(fold, binary, values[i], values[j])
    {
      KeyIff(fold, binary, values[i], values[j]);
    }
  }

  // ---------------------------------------------------------------- texts

  lemma JoinLonger(parts: seq<string>, c: char)
    requires parts != []
    ensures Join(parts[|parts| - 1 := parts[|parts| - 1] + [c]]) == Join(parts) + [c]
  {
    var m := |parts| - 1;
    assert parts == parts[..m] + [parts[m]];
    assert parts[m := parts[m] + [c]] == parts[..m] + [parts[m] + [c]];
    JoinMore(parts[..m], parts[m]);
    JoinMore(parts[..m], parts[m] + [c]);
    if m > 0 {
      assert Join(parts[..m]) + "," + (parts[m] + [c]) == Join(parts[..m]) + "," + parts[m] + [c];
    }
  }

  lemma {:induction false} JoinSplit(s: string)
    ensures Join(Split(s)) == s
  {
    if s == "" {
      assert Split(s) == [""];
    } else {
      var n := |s| - 1;
      JoinSplit(s[..n]);
      var parts := Split(s[..n]);
      assert s == s[..n] + [s[n]];
      if s[n] == ',' {
        JoinMore(parts, "");
        assert Join(parts) + "," + "" == s[..n] + ",";
      } else {
        JoinLonger(parts, s[n]);
      }
    }
  }

  predicate NoCommas(parts: seq<string>) {
    forall i :: 0 <= i < |parts| ==> NoComma(parts[i])
  }

  lemma {:induction false} SplitNoCommas(s: string)
    ensures NoCommas(Split(s))
  {
    if s != "" {
      SplitNoCommas(s[..|s| - 1]);
    }
  }

  /** A text is split at exactly its commas: the parts hold none, and joined they are the text. */
  lemma SplitIs(s: string)
    ensures Join(Split(s)) == s && NoCommas(Split(s))
  {
    JoinSplit(s);
    SplitNoCommas(s);
  }

  /** Every value but the one at `i` before it is known; that one is not. */
  predicate FirstUnknown(t: SetType, vals: seq<string>, i: nat) {
    i < |vals| && Lookup(t, vals[i]).None? && forall k :: 0 <= k < i ==> Lookup(t, vals[k]).Some?
  }

  /** A list with an unknown name is refused with the first one. */
  lemma {:induction false} RefusedNameIsFirst(t: SetType, vals: seq<string>)
    ensures FieldOf(t, vals).Err? ==> exists i :: 0 <= i < |vals| && FirstUnknown(t, vals, i) && FieldOf(t, vals) == Err(InvalidValue(vals[i]))
    decreases |vals|
  {
    if vals != [] {
      var n := |vals| - 1;
      RefusedNameIsFirst(t, vals[..n]);
      FieldBits(t, vals[..n], 0);
      assert forall k :: 0 <= k < n ==> vals[..n][k] == vals[k];
      if FieldOf(t, vals[..n]).Err? {
        var i :| 0 <= i < n && FirstUnknown(t, vals[..n], i) && FieldOf(t, vals[..n]) == Err(InvalidValue(vals[..n][i]));
        assert FirstUnknown(t, vals, i);
      } else if FieldOf(t, vals).Err? {
        assert FirstUnknown(t, vals, n);
      }
    }
  }

  predicate AllBelow(at: seq<nat>, n: nat) {
    forall k :: 0 <= k < |at| ==> at[k] < n
  }

  function SetBits(x: nat, n: nat): (at: seq<nat>)
    ensures AllBelow(at, n)
  {
    if n == 0 then [] else SetBits(x, n - 1) + if Bit(x, n - 1) then [n - 1] else []
  }

  function HasBit(x: nat): nat -> bool {
    (j: nat) => Bit(x, j)
  }

  lemma SetBitsMore(x: nat, n: nat)
    ensures SetBits(x, n + 1) == if HasBit(x)(n) then SetBits(x, n) + [n] else SetBits(x, n)
  {
    assert SetBits(x, n) + [] == SetBits(x, n);
  }

  lemma PickedNext(x: nat, n: nat, all: seq<nat>, at: seq<nat>)
    requires Picked<nat>(Upto(n), HasBit(x), at)
    requires all == Upto(n) + [n]
    ensures Picked<nat>(all, HasBit(x), if HasBit(x)(n) then at + [n] else at)
  {
    PicksMore<nat>(Upto(n), HasBit(x), at, n);
  }

  /** Exactly the bits that are set, in ascending order. */
  lemma {:induction false} SetBitsPicked(x: nat, n: nat)
    ensures Picked<nat>(Upto(n), HasBit(x), SetBits(x, n))
  {
    if n == 0 {
      PicksNone<nat>(HasBit(x));
    } else {
      SetBitsPicked(x, n - 1);
      UptoMore(n - 1);
      SetBitsMore(x, n - 1);
      PickedNext(x, n - 1, Upto(n), SetBits(x, n - 1));
    }
  }

  /** The members at these places. */
  function MembersAt(members: seq<string>, at: seq<nat>): seq<string>
    requires AllBelow(at, |members|)
  {
    seq(|at|, k requires 0 <= k < |at| => members[at[k]])
  }

  lemma MembersAtMore(members: seq<string>, at: seq<nat>, i: nat)
    requires AllBelow(at, |members|) && i < |members|
    ensures MembersAt(members, at + [i]) == MembersAt(members, at) + [members[i]]
  {
  }

  lemma {:induction false} ChosenAt(members: seq<string>, x: nat, n: nat)
    requires n <= |members|
    ensures Chosen(members, x, n) == MembersAt(members, SetBits(x, n))
  {
    if n > 0 {
      ChosenAt(members, x, n - 1);
      MembersAtMore(members, SetBits(x, n - 1), n - 1);
      if !Bit(x, n - 1) {
        assert SetBits(x, n) == SetBits(x, n - 1) && Chosen(members, x, n) == Chosen(members, x, n - 1);
      }
    }
  }

  /** From the length of the number on, no bit is set. */
  lemma {:induction false} NoBitsBeyond(x: nat, n: nat)
    requires BitLen(x) <= n
    ensures SetBits(x, n) == SetBits(x, BitLen(x))
  {
    if BitLen(x) < n {
      NoBitsBeyond(x, n - 1);
      if Bit(x, n - 1) {
        BitBelowLen(x, n - 1);
      }
    }
  }

  /** A field is printed as the names of the members whose bits are set, in the order of their definition, with commas between them. */
  lemma PrintedIs(members: seq<string>, x: nat)
    requires Printed(members, x).Ok?
    ensures exists at: seq<nat> ::
              && Picked<nat>(Upto(|members|), HasBit(x), at) && AllBelow(at, |members|)
              && Printed(members, x) == Ok(Join(MembersAt(members, at)))
  {
    ChosenAt(members, x, BitLen(x));
    NoBitsBeyond(x, |members|);
    SetBitsPicked(x, |members|);
  }

  /** A number stands for a set of the type exactly when it is below 2 to the number of members. */
  lemma NumberAcceptedIff(t: SetType, members: seq<string>, x: nat)
    requires Holds(t, members)
    ensures Marshal(t, Field(x)).Ok? <==> x < Pow2(|members|)
    ensures Marshal(t, Field(x)).Ok? ==> Marshal(t, Field(x)) == Ok(x)
  {
    BitsCount(t, members);
    AllBitsIs(|members|);
  }

  /** A text stands for a set of the type exactly when it is empty or lists names of members. */
  lemma TextAcceptedIff(t: SetType, members: seq<string>, s: string)
    requires Holds(t, members)
    ensures Marshal(t, Text(s)).Ok? <==> s == "" || AllNames(t, members, Split(s))
  {
    if s != "" {
      FieldBits(t, Split(s), 0);
      AllNamesIff(t, members, Split(s));
    }
  }

  ghost predicate AllNames(t: SetType, members: seq<string>, vals: seq<string>) {
    forall k :: 0 <= k < |vals| ==> IsName(t, members, vals[k])
  }

  lemma AllNamesIff(t: SetType, members: seq<string>, vals: seq<string>)
    requires Holds(t, members)
    ensures AllKnown(t, vals) <==> AllNames(t, members, vals)
  {
    forall k | 0 <= k < |vals|
      ensures Lookup(t, vals[k]).Some? <==> IsName(t, members, vals[k])
    {
      NameIff(t, members, vals[k]);
    }
  }

  /** The text is the name of a member. */
  ghost predicate IsName(t: SetType, members: seq<string>, val: string) {
    exists i :: 0 <= i < |members| && SameName(t.fold, t.binary, val, members[i])
  }

  lemma NameIff(t: SetType, members: seq<string>, val: string)
    requires Holds(t, members)
    ensures Lookup(t, val).Some? <==> IsName(t, members, val)
  {
    if Lookup(t, val).Some? {
      LookupIff(t, members, val, Lookup(t, val).value);
    }
    if i :| 0 <= i < |members| && SameName(t.fold, t.binary, val, members[i]) {
      LookupIff(t, members, val, i);
    }
  }

  // ---------------------------------------------------------------- order

  /** Member `j` is the highest in which the values differ, and only the second has it. */
  ghost predicate HighestOnlyIn(t: SetType, a: Input, b: Input, j: nat) {
    Marks(t, b, j) && !Marks(t, a, j) && forall k: nat :: k > j ==> (Marks(t, a, k) <==> Marks(t, b, k))
  }

  ghost predicate HighestBitOnlyIn(x: nat, y: nat, j: nat) {
    Bit(y, j) && !Bit(x, j) && forall k: nat :: k > j ==> (Bit(x, k) <==> Bit(y, k))
  }

  lemma {:induction false} HighestDecides(x: nat, y: nat, j: nat)
    requires HighestBitOnlyIn(x, y, j)
    ensures x < y
    decreases j
  {
    if j == 0 {
      forall k: nat ensures Bit(x / 2, k) <==> Bit(y / 2, k) {
        assert Bit(x, k + 1) <==> Bit(y, k + 1);
      }
      SameBitsEqual(x / 2, y / 2);
    } else {
      forall k: nat | k > j - 1 ensures Bit(x / 2, k) <==> Bit(y / 2, k) {
        assert Bit(x, k + 1) <==> Bit(y, k + 1);
      }
      HighestDecides(x / 2, y / 2, j - 1);
    }
  }

  lemma {:induction false} SomeHighest(x: nat, y: nat)
    requires x < y
    ensures exists j: nat :: HighestBitOnlyIn(x, y, j)
    decreases y
  {
    if x / 2 == y / 2 {
      forall k: nat | k > 0 ensures Bit(x, k) <==> Bit(y, k) {
        assert Bit(x, k) <==> Bit(x / 2, k - 1);
      }
      assert HighestBitOnlyIn(x, y, 0);
    } else {
      SomeHighest(x / 2, y / 2);
      var j: nat :| HighestBitOnlyIn(x / 2, y / 2, j);
      forall k: nat | k > j + 1 ensures Bit(x, k) <==> Bit(y, k) {
        assert Bit(x / 2, k - 1) <==> Bit(y / 2, k - 1);
      }
      assert HighestBitOnlyIn(x, y, j + 1);
    }
  }

  /** A value is below another exactly when the highest member in which they differ is one of the other. */
  lemma CompareSign(t: SetType, a: Input, b: Input)
    requires Marshal(t, a).Ok? && Marshal(t, b).Ok?
    ensures Compare(t, a, b) == Ok(-1) <==> exists j: nat :: HighestOnlyIn(t, a, b, j)
    ensures Compare(t, a, b) == Ok(1) <==> exists j: nat :: HighestOnlyIn(t, b, a, j)
  {
    var x, y := Marshal(t, a).value, Marshal(t, b).value;
    BelowIff(t, a, b);
    BelowIff(t, b, a);
  }

  lemma BelowIff(t: SetType, a: Input, b: Input)
    requires Marshal(t, a).Ok? && Marshal(t, b).Ok?
    ensures Marshal(t, a).value < Marshal(t, b).value <==> exists j: nat :: HighestOnlyIn(t, a, b, j)
  {
    var x, y := Marshal(t, a).value, Marshal(t, b).value;
    forall j: nat ensures (Bit(x, j) <==> Marks(t, a, j)) && (Bit(y, j) <==> Marks(t, b, j)) {
      MarshalMarks(t, a, j);
      MarshalMarks(t, b, j);
    }
    if x < y {
      SomeHighest(x, y);
      var j: nat :| HighestBitOnlyIn(x, y, j);
      assert HighestOnlyIn(t, a, b, j);
    }
    if j: nat :| HighestOnlyIn(t, a, b, j) {
      HighestDecides(x, y, j);
    }
  }
}
