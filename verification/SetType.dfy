/** The SET type: members as the bits of a number and as a list of names, from sql/settype.go. */
module SetType {
  import opened Wrappers

  // ---------------------------------------------------------------- bit fields

  predicate Bit(x: nat, i: nat) {
    if i == 0 then x % 2 == 1 else Bit(x / 2, i - 1)
  }

  /** x | 1<<i. */
  function OrBit(x: nat, i: nat): nat {
    if i == 0 then (if x % 2 == 1 then x else x + 1) else 2 * OrBit(x / 2, i - 1) + x % 2
  }

  /** 64 - bits.LeadingZeros64(x). */
  function BitLen(x: nat): nat {
    if x == 0 then 0 else 1 + BitLen(x / 2)
  }

  /** (1<<n) - 1. */
  function AllBits(n: nat): nat {
    if n == 0 then 0 else 2 * AllBits(n - 1) + 1
  }

  lemma {:induction false} BitOrBit(x: nat, i: nat, j: nat)
    ensures Bit(OrBit(x, i), j) <==> j == i || Bit(x, j)
    decreases i
  {
    if i > 0 && j > 0 {
      BitOrBit(x / 2, i - 1, j - 1);
    }
  }

  ghost predicate SameBits(x: nat, y: nat) {
    forall j: nat :: Bit(x, j) <==> Bit(y, j)
  }

  /** A number is known by its bits. */
  lemma {:induction false} SameBitsEqual(x: nat, y: nat)
    requires SameBits(x, y)
    ensures x == y
    decreases x + y
  {
    if x + y > 0 {
      assert Bit(x, 0) <==> Bit(y, 0);
      forall j: nat ensures Bit(x / 2, j) <==> Bit(y / 2, j) {
        assert Bit(x, j + 1) <==> Bit(y, j + 1);
      }
      SameBitsEqual(x / 2, y / 2);
    }
  }

  lemma {:induction false} BitBelowLen(x: nat, j: nat)
    requires Bit(x, j)
    ensures j < BitLen(x)
  {
    if j > 0 {
      BitBelowLen(x / 2, j - 1);
    }
  }

  lemma {:induction false} AllBitsBound(x: nat, n: nat)
    ensures x <= AllBits(n) <==> BitLen(x) <= n
  {
    if n > 0 && x > 0 {
      AllBitsBound(x / 2, n - 1);
    }
  }

  lemma {:induction false} AllBitsLen(n: nat)
    ensures BitLen(AllBits(n)) == n
  {
    if n > 0 {
      AllBitsLen(n - 1);
    }
  }

  // ---------------------------------------------------------------- lists of names

  predicate NoComma(s: string) {
    ',' !in s
  }

  /** The names with commas between them. */
  function Join(names: seq<string>): string {
    if names == [] then ""
    else
      var n := |names| - 1;
      if n == 0 then names[0] else Join(names[..n]) + "," + names[n]
  }

  /** strings.Split at commas. */
  function Split(s: string): (r: seq<string>)
    ensures r != []
  {
    if s == "" then [""]
    else
      var r, c := Split(s[..|s| - 1]), s[|s| - 1];
      if c == ',' then r + [""] else r[|r| - 1 := r[|r| - 1] + [c]]
  }

  lemma {:induction false} SplitName(v: string)
    requires NoComma(v)
    ensures Split(v) == [v]
  {
    if v != "" {
      SplitName(v[..|v| - 1]);
      assert v == v[..|v| - 1] + [v[|v| - 1]];
    }
  }

  lemma {:induction false} SplitAppend(s: string, v: string)
    requires NoComma(v)
    ensures Split(s + "," + v) == Split(s) + [v]
    decreases |v|
  {
    var t := s + "," + v;
    if v == "" {
      assert t[..|t| - 1] == s;
    } else {
      var n := |v| - 1;
      SplitAppend(s, v[..n]);
      assert t[..|t| - 1] == s + "," + v[..n] && t[|t| - 1] == v[n];
      assert v == v[..n] + [v[n]];
    }
  }

  lemma {:induction false} SplitJoin(names: seq<string>)
    requires names != [] && forall i :: 0 <= i < |names| ==> NoComma(names[i])
    ensures Split(Join(names)) == names
  {
    var n := |names| - 1;
    if n == 0 {
      SplitName(names[0]);
    } else {
      SplitJoin(names[..n]);
      SplitAppend(Join(names[..n]), names[n]);
      assert names == names[..n] + [names[n]];
    }
  }

  lemma {:induction false} JoinEmptyIff(names: seq<string>)
    ensures Join(names) == "" <==> names == [] || names == [""]
  {
  }

  // ---------------------------------------------------------------- the type

  const MAX_ELEMENTS := 64

  datatype Error =
    | NoValues | TooManyValues | CommaInValue | DuplicateEntry(value: string)
    | TooLarge(field: nat) | InvalidValue(value: string) | NotConvertible

  /** The bit 1<<i is written i. `fold` is the lower-casing of texts. */
  datatype SetType = SetType(
    fold: string -> string,
    binary: bool,
    compareToOriginal: map<string, string>,
    valToBit: map<string, nat>,
    bitToVal: map<nat, string>)

  function TrimRight(s: string): (r: string)
    ensures NoComma(s) ==> NoComma(r)
  {
    if s != "" && s[|s| - 1] == ' ' then TrimRight(s[..|s| - 1]) else s
  }

  lemma {:induction false} TrimTwice(s: string)
    ensures TrimRight(TrimRight(s)) == TrimRight(s)
  {
    if s != "" && s[|s| - 1] == ' ' {
      TrimTwice(s[..|s| - 1]);
    }
  }

  /** A value as the type keeps it. */
  function Stored(binary: bool, value: string): string {
    if binary then value else TrimRight(value)
  }

  /** What values are compared by. */
  function Key(fold: string -> string, binary: bool, value: string): string {
    if binary then value else fold(TrimRight(value))
  }

  /** Distinct members without commas, as they are kept. */
  predicate Members(fold: string -> string, binary: bool, members: seq<string>) {
    && (forall i :: 0 <= i < |members| ==> NoComma(members[i]) && Stored(binary, members[i]) == members[i])
    && (forall i, j :: 0 <= i < j < |members| ==> Key(fold, binary, members[i]) != Key(fold, binary, members[j]))
  }

  ghost predicate HoldsBits(m: map<nat, string>, members: seq<string>) {
    && (forall i :: i in m <==> 0 <= i < |members|)
    && (forall i :: 0 <= i < |members| ==> m[i] == members[i])
  }

  ghost predicate HoldsValues(m: map<string, nat>, members: seq<string>) {
    && (forall v :: v in m ==> m[v] < |members| && members[m[v]] == v)
    && (forall i :: 0 <= i < |members| ==> members[i] in m && m[members[i]] == i)
  }

  ghost predicate HoldsKeys(fold: string -> string, binary: bool, m: map<string, string>, members: seq<string>) {
    && (forall k :: k in m ==> m[k] in members && Key(fold, binary, m[k]) == k)
    && (forall i :: 0 <= i < |members| ==> Key(fold, binary, members[i]) in m && m[Key(fold, binary, members[i])] == members[i])
  }

  /** The maps of the type hold these members, the i-th at bit i. */
  ghost predicate Holds(t: SetType, members: seq<string>) {
    && Members(t.fold, t.binary, members)
    && HoldsBits(t.bitToVal, members)
    && HoldsValues(t.valToBit, members)
    && HoldsKeys(t.fold, t.binary, t.compareToOriginal, members)
  }

  /** The first n values, as they are kept. */
  function StoredFirst(binary: bool, values: seq<string>, n: nat): seq<string>
    requires n <= |values|
  {
    seq(n, i requires 0 <= i < n => Stored(binary, values[i]))
  }

  lemma StoredKey(fold: string -> string, binary: bool, value: string)
    ensures Key(fold, binary, Stored(binary, value)) == Key(fold, binary, value)
    ensures Stored(binary, Stored(binary, value)) == Stored(binary, value)
  {
    TrimTwice(value);
  }

  /** A definition is accepted when it has one to sixty-four values without commas, no two of which compare equal. */
  ghost predicate Definable(fold: string -> string, binary: bool, values: seq<string>) {
    && 1 <= |values| <= MAX_ELEMENTS
    && (forall i :: 0 <= i < |values| ==> NoComma(values[i]))
    && (forall i, j :: 0 <= i < j < |values| ==> Key(fold, binary, values[i]) != Key(fold, binary, values[j]))
  }

  predicate CommaFree(values: seq<string>, n: nat)
    requires n <= |values|
  {
    n == 0 || (CommaFree(values, n - 1) && NoComma(values[n - 1]))
  }

  lemma {:induction false} CommaFreeAt(values: seq<string>, n: nat, i: nat)
    requires i < n <= |values| && CommaFree(values, n)
    ensures NoComma(values[i])
  {
    if i < n - 1 {
      CommaFreeAt(values, n - 1, i);
    }
  }

  /** No comma and no name twice among the first `n` values. */
  ghost predicate FineUpTo(fold: string -> string, binary: bool, values: seq<string>, n: nat)
    requires n <= |values|
  {
    && (forall i :: 0 <= i < n ==> NoComma(values[i]))
    && (forall i, j :: 0 <= i < j < n ==> Key(fold, binary, values[i]) != Key(fold, binary, values[j]))
  }

  /** Value `i` is the first to be refused, and this is why. */
  ghost predicate RefusedAt(fold: string -> string, binary: bool, values: seq<string>, i: nat, e: Error)
    requires i < |values|
  {
    && FineUpTo(fold, binary, values, i)
    && if !NoComma(values[i]) then e == CommaInValue
       else
         && e == DuplicateEntry(Stored(binary, values[i]))
         && exists k :: 0 <= k < i && Key(fold, binary, values[k]) == Key(fold, binary, values[i])
  }

  lemma HoldsFine(t: SetType, values: seq<string>, n: nat)
    requires n <= |values| && Holds(t, StoredFirst(t.binary, values, n)) && CommaFree(values, n)
    ensures FineUpTo(t.fold, t.binary, values, n)
  {
    var members := StoredFirst(t.binary, values, n);
    forall i | 0 <= i < n ensures NoComma(values[i]) && Key(t.fold, t.binary, members[i]) == Key(t.fold, t.binary, values[i]) {
      CommaFreeAt(values, n, i);
      StoredKey(t.fold, t.binary, values[i]);
    }
  }

  lemma Defines(fold: string -> string, binary: bool, values: seq<string>)
    requires Members(fold, binary, StoredFirst(binary, values, |values|)) && CommaFree(values, |values|)
    requires 1 <= |values| <= MAX_ELEMENTS
    ensures Definable(fold, binary, values)
  {
    var members := StoredFirst(binary, values, |values|);
    forall i | 0 <= i < |values| ensures NoComma(values[i]) && Key(fold, binary, members[i]) == Key(fold, binary, values[i]) {
      CommaFreeAt(values, |values|, i);
      StoredKey(fold, binary, values[i]);
    }
  }

  lemma DuplicateKey(fold: string -> string, binary: bool, values: seq<string>, n: nat, keys: map<string, string>)
    requires n < |values| && HoldsKeys(fold, binary, keys, StoredFirst(binary, values, n)) && Key(fold, binary, values[n]) in keys
    ensures exists k :: 0 <= k < n && Key(fold, binary, values[k]) == Key(fold, binary, values[n])
  {
    var members := StoredFirst(binary, values, n);
    var i :| 0 <= i < n && members[i] == keys[Key(fold, binary, values[n])];
    StoredKey(fold, binary, values[i]);
    assert Key(fold, binary, values[i]) == Key(fold, binary, values[n]);
  }

  lemma Accepts(t: SetType, values: seq<string>, i: nat)
    requires i < |values| && Holds(t, StoredFirst(t.binary, values, i))
    requires NoComma(values[i]) && Key(t.fold, t.binary, values[i]) !in t.compareToOriginal
    ensures Holds(Extended(t, Key(t.fold, t.binary, values[i]), Stored(t.binary, values[i]), i), StoredFirst(t.binary, values, i + 1))
  {
    var members, value := StoredFirst(t.binary, values, i), Stored(t.binary, values[i]);
    StoredKey(t.fold, t.binary, values[i]);
    StoredFirstMore(t.binary, values, i);
    HoldsMore(t, members, value);
  }

  lemma StoredFirstMore(binary: bool, values: seq<string>, i: nat)
    requires i < |values|
    ensures StoredFirst(binary, values, i + 1) == StoredFirst(binary, values, i) + [Stored(binary, values[i])]
  {
  }

  lemma RefusedIsNotDefinable(fold: string -> string, binary: bool, values: seq<string>, i: nat, e: Error)
    requires i < |values| && RefusedAt(fold, binary, values, i, e)
    ensures !Definable(fold, binary, values)
  {
  }

  method CreateSetType(fold: string -> string, binary: bool, values: seq<string>) returns (r: Result<SetType, Error>)
    ensures r.Ok? <==> Definable(fold, binary, values)
    ensures r.Ok? ==> Holds(r.value, StoredFirst(binary, values, |values|)) && r.value.fold == fold && r.value.binary == binary
    ensures r == Err(NoValues) <==> values == []
    ensures r == Err(TooManyValues) <==> |values| > MAX_ELEMENTS
    ensures r.Err? && 1 <= |values| <= MAX_ELEMENTS ==> exists i :: 0 <= i < |values| && RefusedAt(fold, binary, values, i, r.error)
  {
    if |values| == 0 {
      return Err(NoValues);
    }
    if |values| > MAX_ELEMENTS {
      return Err(TooManyValues);
    }
    r := AddValues(SetType(fold, binary, map[], map[], map[]), values);
  }

  /** The loop of CreateSetType. */
  method AddValues(empty: SetType, values: seq<string>) returns (r: Result<SetType, Error>)
    requires Holds(empty, []) && 1 <= |values| <= MAX_ELEMENTS
    ensures r.Ok? <==> Definable(empty.fold, empty.binary, values)
    ensures r.Ok? ==> Holds(r.value, StoredFirst(empty.binary, values, |values|))
    ensures r.Ok? ==> r.value.fold == empty.fold && r.value.binary == empty.binary
    ensures r.Err? ==> exists i :: 0 <= i < |values| && RefusedAt(empty.fold, empty.binary, values, i, r.error)
  {
    r := Ok(empty);
    assert StoredFirst(empty.binary, values, 0) == [];
    for i := 0 to |values|
      invariant r.Ok? && r.value.fold == empty.fold && r.value.binary == empty.binary
      invariant Holds(r.value, StoredFirst(empty.binary, values, i)) && CommaFree(values, i)
    {
      r := AddValue(r.value, values, i);
      if r.Err? {
        RefusedIsNotDefinable(empty.fold, empty.binary, values, i, r.error);
        return;
      }
    }
    Defines(empty.fold, empty.binary, values);
  }

  /** The body of the loop of CreateSetType. */
  method AddValue(t: SetType, values: seq<string>, i: nat) returns (r: Result<SetType, Error>)
    requires i < |values| && Holds(t, StoredFirst(t.binary, values, i)) && CommaFree(values, i)
    ensures r.Ok? ==> r.value.fold == t.fold && r.value.binary == t.binary && NoComma(values[i])
    ensures r.Ok? ==> Holds(r.value, StoredFirst(t.binary, values, i + 1))
    ensures r.Err? ==> RefusedAt(t.fold, t.binary, values, i, r.error)
  {
    HoldsFine(t, values, i);
    if !NoComma(values[i]) {
      return Err(CommaInValue);
    }
    var value := Stored(t.binary, values[i]);
    var key := Key(t.fold, t.binary, values[i]);
    if key in t.compareToOriginal {
      DuplicateKey(t.fold, t.binary, values, i, t.compareToOriginal);
      return Err(DuplicateEntry(value));
    }
    Accepts(t, values, i);
    return Ok(Extended(t, key, value, i));
  }

  function Extended(t: SetType, key: string, value: string, i: nat): SetType {
    SetType(t.fold, t.binary, t.compareToOriginal[key := value], t.valToBit[value := i], t.bitToVal[i := value])
  }

  lemma HoldsMore(t: SetType, members: seq<string>, value: string)
    requires Holds(t, members) && NoComma(value) && Stored(t.binary, value) == value
    requires Key(t.fold, t.binary, value) !in t.compareToOriginal
    ensures Holds(Extended(t, Key(t.fold, t.binary, value), value, |members|), members + [value])
  {
    MembersMore(t.fold, t.binary, t.compareToOriginal, members, value);
    assert value !in t.valToBit;
    assert HoldsBits(t.bitToVal[|members| := value], members + [value]);
    HoldsMoreKeys(t.fold, t.binary, t.compareToOriginal, members, value);
    HoldsMoreValues(t.valToBit, members, value);
  }

  lemma MembersMore(fold: string -> string, binary: bool, keys: map<string, string>, members: seq<string>, value: string)
    requires Members(fold, binary, members) && HoldsKeys(fold, binary, keys, members) && Key(fold, binary, value) !in keys
    requires NoComma(value) && Stored(binary, value) == value
    ensures Members(fold, binary, members + [value]) && value !in members
  {
    forall i | 0 <= i < |members| ensures Key(fold, binary, members[i]) != Key(fold, binary, value) {
      assert Key(fold, binary, members[i]) in keys;
    }
  }

  lemma HoldsMoreKeys(fold: string -> string, binary: bool, m: map<string, string>, members: seq<string>, value: string)
    requires HoldsKeys(fold, binary, m, members) && Key(fold, binary, value) !in m
    ensures HoldsKeys(fold, binary, m[Key(fold, binary, value) := value], members + [value])
  {
  }

  lemma HoldsMoreValues(m: map<string, nat>, members: seq<string>, value: string)
    requires HoldsValues(m, members) && value !in m
    ensures HoldsValues(m[value := |members|], members + [value])
  {
  }

  // ---------------------------------------------------------------- fields and texts

  /** The first n members whose bits are set. */
  function Chosen(members: seq<string>, x: nat, n: nat): (r: seq<string>)
    requires n <= |members|
    ensures forall k :: 0 <= k < |r| ==> r[k] in members
  {
    if n == 0 then []
    else Chosen(members, x, n - 1) + if Bit(x, n - 1) then [members[n - 1]] else []
  }

  /** What a field is printed as. */
  function Printed(members: seq<string>, x: nat): Result<string, Error> {
    if BitLen(x) > |members| then Err(TooLarge(x)) else Ok(Join(Chosen(members, x, BitLen(x))))
  }

  lemma JoinMore(names: seq<string>, name: string)
    ensures Join(names + [name]) == if names == [] then name else Join(names) + "," + name
  {
    assert (names + [name])[..|names|] == names;
  }

  lemma PrintedStep(members: seq<string>, x: nat, i: nat)
    requires i < |members|
    ensures var before, after := Chosen(members, x, i), Chosen(members, x, i + 1);
            if !Bit(x, i) then after == before
            else after != [] && Join(after) == if before == [] then "" + members[i] else Join(before) + "," + members[i]
  {
    var before := Chosen(members, x, i);
    if Bit(x, i) {
      JoinMore(before, members[i]);
      assert "" + members[i] == members[i];
    } else {
      assert before + [] == before;
    }
  }

  lemma BitsCount(t: SetType, members: seq<string>)
    requires HoldsBits(t.bitToVal, members) && HoldsValues(t.valToBit, members)
    ensures |t.bitToVal| == |members| && |t.valToBit| == |members|
  {
    KeysBelow(t.bitToVal.Keys, |members|);
    ValuesBelow(t.valToBit.Keys, members);
  }

  lemma {:induction false} KeysBelow(s: set<nat>, n: nat)
    requires forall i :: i in s <==> 0 <= i < n
    ensures |s| == n
  {
    if n == 0 {
      assert s == {};
    } else {
      KeysBelow(s - {n - 1}, n - 1);
    }
  }

  lemma {:induction false} ValuesBelow(s: set<string>, members: seq<string>)
    requires (forall v :: v in s <==> v in members) && (forall i, j :: 0 <= i < j < |members| ==> members[i] != members[j])
    ensures |s| == |members|
  {
    if members == [] {
      assert s == {};
    } else {
      var n := |members| - 1;
      assert members == members[..n] + [members[n]];
      ValuesBelow(s - {members[n]}, members[..n]);
    }
  }

  method ConvertBitFieldToString(t: SetType, x: nat, ghost members: seq<string>) returns (r: Result<string, Error>)
    requires HoldsBits(t.bitToVal, members)
    ensures r == Printed(members, x)
  {
    KeysBelow(t.bitToVal.Keys, |members|);
    var s := "";
    var bitEdge := BitLen(x);
    var writeCommas := false;
    if bitEdge > |t.bitToVal| {
      return Err(TooLarge(x));
    }
    for i := 0 to bitEdge
      invariant s == Join(Chosen(members, x, i)) && (writeCommas <==> Chosen(members, x, i) != [])
    {
      PrintedStep(members, x, i);
      if Bit(x, i) {
        if writeCommas {
          s := s + ",";
        } else {
          writeCommas := true;
        }
        s := s + t.bitToVal[i];
      }
    }
    return Ok(s);
  }

  /** The bit of the member a text stands for. */
  function Lookup(t: SetType, val: string): Option<nat> {
    var k := Key(t.fold, t.binary, val);
    if k in t.compareToOriginal && t.compareToOriginal[k] in t.valToBit then Some(t.valToBit[t.compareToOriginal[k]]) else None
  }

  function FieldOf(t: SetType, vals: seq<string>): Result<nat, Error> {
    if vals == [] then Ok(0)
    else
      var n := |vals| - 1;
      match FieldOf(t, vals[..n])
      case Err(e) => Err(e)
      case Ok(x) =>
        match Lookup(t, vals[n])
        case None => Err(InvalidValue(vals[n]))
        case Some(i) => Ok(OrBit(x, i))
  }

  /** What a text is read as. */
  function ReadField(t: SetType, s: string): Result<nat, Error> {
    if s == "" then Ok(0) else FieldOf(t, Split(s))
  }

  lemma {:induction false} FieldFails(t: SetType, vals: seq<string>, n: nat)
    requires n <= |vals| && FieldOf(t, vals[..n]).Err?
    ensures FieldOf(t, vals) == FieldOf(t, vals[..n])
    decreases |vals|
  {
    if n == |vals| {
      assert vals[..n] == vals;
    } else {
      assert vals[..|vals| - 1][..n] == vals[..n];
      FieldFails(t, vals[..|vals| - 1], n);
    }
  }

  method ConvertStringToBitField(t: SetType, s: string) returns (r: Result<nat, Error>)
    requires exists members :: Holds(t, members)
    ensures r == ReadField(t, s)
  {
    if s == "" {
      return Ok(0);
    }
    var x := 0;
    var vals := Split(s);
    for n := 0 to |vals|
      invariant FieldOf(t, vals[..n]) == Ok(x)
    {
      assert vals[..n + 1][..n] == vals[..n];
      var compareVal := Key(t.fold, t.binary, vals[n]);
      if compareVal in t.compareToOriginal {
        x := OrBit(x, t.valToBit[t.compareToOriginal[compareVal]]);
      } else {
        FieldFails(t, vals, n + 1);
        return Err(InvalidValue(vals[n]));
      }
    }
    assert vals[..|vals|] == vals;
    return Ok(x);
  }

  // ---------------------------------------------------------------- what the conversions mean

  ghost predicate AllKnown(t: SetType, vals: seq<string>) {
    forall k :: 0 <= k < |vals| ==> Lookup(t, vals[k]).Some?
  }

  ghost predicate Names(t: SetType, vals: seq<string>, j: nat) {
    exists k :: 0 <= k < |vals| && Lookup(t, vals[k]) == Some(j)
  }

  /** Reading succeeds when every name is known, and sets exactly the bits of the members that are named. */
  lemma {:induction false} FieldBits(t: SetType, vals: seq<string>, j: nat)
    ensures FieldOf(t, vals).Ok? <==> AllKnown(t, vals)
    ensures FieldOf(t, vals).Ok? ==> (Bit(FieldOf(t, vals).value, j) <==> Names(t, vals, j))
  {
    if vals == [] {
      NoBits(j);
    } else {
      var n := |vals| - 1;
      FieldBits(t, vals[..n], j);
      assert forall k :: 0 <= k < n ==> vals[..n][k] == vals[k];
      if FieldOf(t, vals).Ok? {
        BitOrBit(FieldOf(t, vals[..n]).value, Lookup(t, vals[n]).value, j);
        NamesMore(t, vals, j);
      }
    }
  }

  lemma {:induction false} NoBits(j: nat)
    ensures !Bit(0, j)
  {
    if j > 0 {
      NoBits(j - 1);
    }
  }

  lemma NamesMore(t: SetType, vals: seq<string>, j: nat)
    requires vals != []
    ensures Names(t, vals, j) <==> Names(t, vals[..|vals| - 1], j) || Lookup(t, vals[|vals| - 1]) == Some(j)
  {
    var n := |vals| - 1;
    if Names(t, vals[..n], j) {
      var k :| 0 <= k < n && Lookup(t, vals[..n][k]) == Some(j);
      assert vals[k] == vals[..n][k];
    }
    if Names(t, vals, j) {
      var k :| 0 <= k < |vals| && Lookup(t, vals[k]) == Some(j);
      if k < n {
        assert vals[..n][k] == vals[k];
      }
    }
  }

  /** Lists that name the same members are read as the same field, whatever their order, repetitions and spelling. */
  lemma SameNamesSameField(t: SetType, a: seq<string>, b: seq<string>)
    requires AllKnown(t, a) && AllKnown(t, b)
    ensures FieldOf(t, a).Ok? && FieldOf(t, b).Ok?
    ensures FieldOf(t, a) == FieldOf(t, b) <==> forall j: nat :: Names(t, a, j) <==> Names(t, b, j)
  {
    FieldBits(t, a, 0);
    FieldBits(t, b, 0);
    var x, y := FieldOf(t, a).value, FieldOf(t, b).value;
    forall j: nat ensures (Bit(x, j) <==> Names(t, a, j)) && (Bit(y, j) <==> Names(t, b, j)) {
      FieldBits(t, a, j);
      FieldBits(t, b, j);
    }
    if forall j: nat :: Names(t, a, j) <==> Names(t, b, j) {
      SameBitsEqual(x, y);
    }
  }

  lemma LookupMember(t: SetType, members: seq<string>, i: nat)
    requires Holds(t, members) && i < |members|
    ensures Lookup(t, members[i]) == Some(i)
  {
  }

  lemma {:induction false} ChosenNames(t: SetType, members: seq<string>, x: nat, n: nat, j: nat)
    requires Holds(t, members) && n <= |members|
    ensures AllKnown(t, Chosen(members, x, n))
    ensures Names(t, Chosen(members, x, n), j) <==> j < n && Bit(x, j)
  {
    if n > 0 {
      ChosenNames(t, members, x, n - 1, j);
      LookupMember(t, members, n - 1);
      var r, r' := Chosen(members, x, n), Chosen(members, x, n - 1);
      if Bit(x, n - 1) {
        assert r[..|r| - 1] == r' && r[|r| - 1] == members[n - 1];
        NamesMore(t, r, j);
      } else {
        assert r == r';
      }
    }
  }

  /** Reading the list of a field's members gives the field. */
  lemma ChosenReads(t: SetType, members: seq<string>, x: nat)
    requires Holds(t, members) && BitLen(x) <= |members|
    ensures FieldOf(t, Chosen(members, x, BitLen(x))) == Ok(x)
  {
    var vals := Chosen(members, x, BitLen(x));
    ChosenNames(t, members, x, BitLen(x), 0);
    FieldBits(t, vals, 0);
    var y := FieldOf(t, vals).value;
    forall j: nat ensures Bit(x, j) <==> Bit(y, j) {
      ChosenNames(t, members, x, BitLen(x), j);
      FieldBits(t, vals, j);
      if Bit(x, j) {
        BitBelowLen(x, j);
      }
    }
    SameBitsEqual(x, y);
  }

  /** The field has the bit of the empty member and no other. */
  ghost predicate OnlyEmpty(members: seq<string>, x: nat) {
    exists i :: 0 <= i < |members| && members[i] == "" && x == OrBit(0, i)
  }

  lemma OnlyEmptyIff(t: SetType, members: seq<string>, x: nat)
    requires Holds(t, members) && BitLen(x) <= |members|
    ensures Chosen(members, x, BitLen(x)) == [""] <==> OnlyEmpty(members, x)
  {
    var vals := Chosen(members, x, BitLen(x));
    ChosenReads(t, members, x);
    if vals == [""] {
      assert vals[0] in members;
      var i :| 0 <= i < |members| && members[i] == "";
      LookupMember(t, members, i);
      assert vals[..0] == [];
      assert FieldOf(t, vals) == Ok(OrBit(0, i));
    } else if OnlyEmpty(members, x) {
      var i :| 0 <= i < |members| && members[i] == "" && x == OrBit(0, i);
      OneBit(members, x, i, BitLen(x));
      BitOrBit(0, i, i);
      BitBelowLen(x, i);
      assert false;
    }
  }

  lemma {:induction false} OneBit(members: seq<string>, x: nat, i: nat, n: nat)
    requires i < |members| && x == OrBit(0, i) && n <= |members|
    ensures Chosen(members, x, n) == if i < n then [members[i]] else []
  {
    if n > 0 {
      OneBit(members, x, i, n - 1);
      BitOrBit(0, i, n - 1);
      NoBits(n - 1);
      var before := Chosen(members, x, n - 1);
      if i == n - 1 {
        assert before == [] && [] + [members[i]] == [members[i]];
      } else {
        assert !Bit(x, n - 1) && before + [] == before;
      }
    }
  }

  /**
   Printing a field that the type can hold and reading the text gives the field back, except for the
   field of the empty member alone, whose text is read as no members.
   */
  lemma FieldRoundTripIff(t: SetType, members: seq<string>, x: nat)
    requires Holds(t, members)
    ensures Printed(members, x).Ok? <==> x <= AllBits(|members|)
    ensures Printed(members, x).Ok? ==> (ReadField(t, Printed(members, x).value) == Ok(x) <==> !OnlyEmpty(members, x))
  {
    AllBitsBound(x, |members|);
    if BitLen(x) <= |members| {
      var vals := Chosen(members, x, BitLen(x));
      ChosenReads(t, members, x);
      OnlyEmptyIff(t, members, x);
      JoinEmptyIff(vals);
      if vals != [] {
        SplitJoin(vals);
      }
      if vals == [""] {
        OnlyEmptyField(members, x);
      }
    }
  }

  lemma OnlyEmptyField(members: seq<string>, x: nat)
    requires OnlyEmpty(members, x)
    ensures x != 0
  {
    var i :| 0 <= i < |members| && members[i] == "" && x == OrBit(0, i);
    BitOrBit(0, i, i);
    NoBits(i);
  }

  // ---------------------------------------------------------------- Convert, Compare, Values

  datatype Input = Field(x: nat) | Text(s: string)

  /** allValuesBitField. */
  function AllValues(t: SetType): nat {
    AllBits(|t.valToBit|)
  }

  function Marshal(t: SetType, v: Input): Result<nat, Error> {
    match v
    case Field(x) => if x <= AllValues(t) then Ok(x) else Err(NotConvertible)
    case Text(s) => ReadField(t, s)
  }

  function Convert(t: SetType, members: seq<string>, v: Input): Result<string, Error> {
    match Marshal(t, v)
    case Err(e) => Err(e)
    case Ok(x) => Printed(members, x)
  }

  function Compare(t: SetType, a: Input, b: Input): Result<int, Error> {
    match Marshal(t, a)
    case Err(e) => Err(e)
    case Ok(x) =>
      match Marshal(t, b)
      case Err(e) => Err(e)
      case Ok(y) => Ok(if x < y then -1 else if x > y then 1 else 0)
  }

  lemma {:induction false} LenOfBits(x: nat, n: nat)
    requires forall j: nat :: Bit(x, j) ==> j < n
    ensures BitLen(x) <= n
  {
    if x > 0 {
      if n == 0 {
        SomeBit(x);
        assert false;
      }
      forall j: nat | Bit(x / 2, j) ensures j < n - 1 {
        assert Bit(x, j + 1);
      }
      LenOfBits(x / 2, n - 1);
    }
  }

  lemma {:induction false} SomeBit(x: nat)
    requires x > 0
    ensures exists j: nat :: Bit(x, j)
  {
    if x % 2 == 1 {
      assert Bit(x, 0);
    } else {
      SomeBit(x / 2);
      var j: nat :| Bit(x / 2, j);
      assert Bit(x, j + 1);
    }
  }

  /** Every value that is accepted becomes a field the type can print. */
  lemma MarshalInRange(t: SetType, members: seq<string>, v: Input)
    requires Holds(t, members) && Marshal(t, v).Ok?
    ensures BitLen(Marshal(t, v).value) <= |members|
  {
    BitsCount(t, members);
    match v
    case Field(x) => AllBitsBound(x, |members|);
    case Text(s) =>
      if s != "" {
        FieldInRange(t, members, Split(s));
      }
  }

  lemma FieldInRange(t: SetType, members: seq<string>, vals: seq<string>)
    requires Holds(t, members) && FieldOf(t, vals).Ok?
    ensures BitLen(FieldOf(t, vals).value) <= |members|
  {
    var x := FieldOf(t, vals).value;
    forall j: nat | Bit(x, j) ensures j < |members| {
      FieldBits(t, vals, j);
      var k :| 0 <= k < |vals| && Lookup(t, vals[k]) == Some(j);
    }
    LenOfBits(x, |members|);
  }

  /** A converted value is converted to itself. */
  lemma ConvertIsIdempotent(t: SetType, members: seq<string>, v: Input)
    requires Holds(t, members) && Marshal(t, v).Ok?
    ensures Convert(t, members, v).Ok?
    ensures Convert(t, members, Text(Convert(t, members, v).value)) == Convert(t, members, v)
  {
    var x := Marshal(t, v).value;
    MarshalInRange(t, members, v);
    FieldRoundTripIff(t, members, x);
    if OnlyEmpty(members, x) {
      OnlyEmptyIff(t, members, x);
      assert Printed(members, x).value == Join([""]) == "";
    }
  }

  /** The members a value stands for. */
  ghost predicate Marks(t: SetType, v: Input, j: nat) {
    match v
    case Field(x) => Bit(x, j)
    case Text(s) => s != "" && Names(t, Split(s), j)
  }

  /** Two values compare equal exactly when they stand for the same members. */
  lemma CompareZeroIff(t: SetType, a: Input, b: Input)
    requires Marshal(t, a).Ok? && Marshal(t, b).Ok?
    ensures Compare(t, a, b).Ok?
    ensures Compare(t, a, b) == Ok(0) <==> forall j: nat :: Marks(t, a, j) <==> Marks(t, b, j)
  {
    var x, y := Marshal(t, a).value, Marshal(t, b).value;
    forall j: nat ensures (Bit(x, j) <==> Marks(t, a, j)) && (Bit(y, j) <==> Marks(t, b, j)) {
      MarshalMarks(t, a, j);
      MarshalMarks(t, b, j);
    }
    if forall j: nat :: Marks(t, a, j) <==> Marks(t, b, j) {
      SameBitsEqual(x, y);
    }
  }

  lemma MarshalMarks(t: SetType, v: Input, j: nat)
    requires Marshal(t, v).Ok?
    ensures Bit(Marshal(t, v).value, j) <==> Marks(t, v, j)
  {
    if v.Text? {
      if v.s == "" {
        NoBits(j);
      } else {
        FieldBits(t, Split(v.s), j);
      }
    }
  }

  /** The members in the order of their definition. */
  method Values(t: SetType, ghost members: seq<string>) returns (r: seq<string>)
    requires HoldsBits(t.bitToVal, members) && HoldsValues(t.valToBit, members)
    ensures r == members
  {
    BitsCount(t, members);
    AllBitsLen(|members|);
    var bitEdge := BitLen(AllValues(t));
    assert bitEdge == |members|;
    r := [];
    for i := 0 to bitEdge
      invariant r == members[..i]
    {
      assert t.bitToVal[i] == members[i];
      r := r + [t.bitToVal[i]];
    }
  }
}
