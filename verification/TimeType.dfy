/** The TIME type: reading, printing and counting microseconds, from sql/timetype.go. */
module TimeType {
  import opened Wrappers

  const SECOND := 1_000_000
  const MINUTE := 60_000_000
  const HOUR := 3_600_000_000
  const MAXIMUM := 3_020_399_000_000

  datatype Timespan = Timespan(negative: bool, hours: int, minutes: int, seconds: int, microseconds: int)

  /** Fields in range, and no further from zero than 838:59:59. */
  predicate Valid(t: Timespan) {
    && 0 <= t.hours <= 838 && 0 <= t.minutes <= 59 && 0 <= t.seconds <= 59 && 0 <= t.microseconds < SECOND
    && (t.hours == 838 && t.minutes == 59 && t.seconds == 59 ==> t.microseconds == 0)
  }

  // ---------------------------------------------------------------- microseconds

  /** int64Abs of a value that is not the least int64. */
  function Abs(v: int): int {
    var shift := if v < 0 then -1 else 0;
    var flipped := if shift == -1 then -v - 1 else v;
    flipped - shift
  }

  function Clamp(v: int): int {
    if v < -MAXIMUM then -MAXIMUM else if v > MAXIMUM then MAXIMUM else v
  }

  function MicrosecondsToTimespan(v: int): Timespan {
    var c := Clamp(v);
    var abs := Abs(c);
    Timespan(c < 0, abs / HOUR, (abs / MINUTE) % 60, (abs / SECOND) % 60, abs % SECOND)
  }

  function AsMicroseconds(t: Timespan): int {
    (if t.negative then -1 else 1) * (t.microseconds + t.seconds * SECOND + t.minutes * MINUTE + t.hours * HOUR)
  }

  lemma Fields(abs: int, h: int, m: int, s: int)
    requires 0 <= abs && h == abs / HOUR && m == (abs / MINUTE) % 60 && s == (abs / SECOND) % 60
    ensures abs == abs % SECOND + s * SECOND + m * MINUTE + h * HOUR
  {
    var seconds, minutes := abs / SECOND, abs / MINUTE;
    assert minutes == seconds / 60 && h == minutes / 60;
  }

  /** Splitting any number of microseconds into fields and adding them up again clamps it. */
  lemma SplitThenCount(v: int)
    ensures Valid(MicrosecondsToTimespan(v))
    ensures AsMicroseconds(MicrosecondsToTimespan(v)) == Clamp(v)
  {
    var abs := Abs(Clamp(v));
    Fields(abs, abs / HOUR, (abs / MINUTE) % 60, (abs / SECOND) % 60);
  }

  /** Adding up the fields of a valid time and splitting them again gives it back, unless it is minus zero. */
  lemma CountThenSplit(t: Timespan)
    requires Valid(t)
    ensures MicrosecondsToTimespan(AsMicroseconds(t)) == t <==> t != Timespan(true, 0, 0, 0, 0)
  {
    var abs := t.microseconds + t.seconds * SECOND + t.minutes * MINUTE + t.hours * HOUR;
    var minutes := t.minutes + t.hours * 60;
    var seconds := t.seconds + minutes * 60;
    Divide(abs, t.microseconds, seconds, SECOND);
    Divide(abs, t.microseconds + t.seconds * SECOND, minutes, MINUTE);
    Divide(abs, t.microseconds + t.seconds * SECOND + t.minutes * MINUTE, t.hours, HOUR);
    Divide(seconds, t.seconds, minutes, 60);
    Divide(minutes, t.minutes, t.hours, 60);
    CountBound(t, abs);
  }

  lemma Divide(n: int, low: int, q: int, d: int)
    requires d == SECOND || d == MINUTE || d == HOUR || d == 60
    requires 0 <= low < d && n == low + q * d
    ensures n / d == q && n % d == low
  {
    if d == SECOND {
    } else if d == MINUTE {
    } else if d == HOUR {
    }
  }

  lemma CountBound(t: Timespan, abs: int)
    requires Valid(t) && abs == t.microseconds + t.seconds * SECOND + t.minutes * MINUTE + t.hours * HOUR
    ensures 0 <= abs <= MAXIMUM && (abs == 0 <==> t == Timespan(t.negative, 0, 0, 0, 0))
    ensures Clamp(AsMicroseconds(t)) == AsMicroseconds(t) && Abs(AsMicroseconds(t)) == abs
  {
  }

  // ---------------------------------------------------------------- the fraction of a second

  function Pow10(k: nat): (r: nat)
    ensures r > 0
  {
    if k == 0 then 1 else 10 * Pow10(k - 1)
  }

  lemma Powers()
    ensures Pow10(1) == 10 && Pow10(2) == 100 && Pow10(3) == 1000 && Pow10(4) == 10000 && Pow10(5) == 100000
    ensures Pow10(6) == 1000000 && Pow10(7) == 10000000 && Pow10(8) == 100000000 && Pow10(9) == 1000000000
  {
    assert Pow10(3) == 1000;
    assert Pow10(5) == 100000;
    assert Pow10(7) == 10000000;
  }

  /** The digits after the point, as microseconds rounded to the nearest; a half is rounded up. */
  function Rounded(digits: nat, k: nat): int {
    var p := Pow10(k);
    (2 * digits * SECOND + p) / (2 * p)
  }

  /** What the code makes of the digits, which it knows only as a number. */
  function Microseconds(digits: nat): nat {
    if digits >= SECOND then
      var reduced := Reduced(digits);
      (if reduced % 10 >= 5 then reduced + 10 else reduced) / 10
    else Padded(digits)
  }

  /** Digits are cut off until seven are left; one too many stays when the comparison with a power of ten is not strict enough. */
  function Reduced(digits: nat): nat {
    var a := if digits > 1000 * SECOND then digits / 10 else digits;
    var b := if a > 100 * SECOND then a / 10 else a;
    if b > 10 * SECOND then b / 10 else b
  }

  /** Zeros are appended until six digits are there. */
  function Padded(digits: nat): (r: nat)
  {
    if digits < 10 then digits * 100000
    else if digits < 100 then digits * 10000
    else if digits < 1000 then digits * 1000
    else if digits < 10000 then digits * 100
    else if digits < 100000 then digits * 10
    else digits
  }

  method ScaleFraction(digits: nat) returns (microseconds: nat)
    ensures microseconds == Microseconds(digits)
  {
    microseconds := digits;
    if microseconds >= SECOND {
      var i := SECOND * 1000;
      while i >= SECOND * 10
        invariant i in {1000 * SECOND, 100 * SECOND, 10 * SECOND, SECOND}
        invariant i == 1000 * SECOND ==> microseconds == digits
        invariant i == 100 * SECOND ==> microseconds == if digits > 1000 * SECOND then digits / 10 else digits
        invariant i == 10 * SECOND ==>
                    microseconds == var a := if digits > 1000 * SECOND then digits / 10 else digits; if a > 100 * SECOND then a / 10 else a
        invariant i == SECOND ==> microseconds == Reduced(digits)
      {
        if microseconds > i {
          microseconds := microseconds / 10;
        }
        i := i / 10;
      }
      if microseconds % 10 >= 5 {
        microseconds := microseconds + 10;
      }
      microseconds := microseconds / 10;
    } else {
      var i := 10;
      while i < SECOND
        invariant i in {10, 100, 1000, 10000, 100000, SECOND}
        invariant digits == 0 ==> microseconds == 0
        invariant digits > 0 ==> i <= 10 * microseconds < 10 * SECOND
        invariant Padded(microseconds) == Padded(digits)
      {
        if microseconds < i {
          microseconds := microseconds * 10;
        }
        i := i * 10;
      }
    }
  }

  /** The numbers of eight and nine digits that the strict comparisons leave one digit too long. */
  predicate Missed(digits: nat, k: nat) {
    (k == 8 && digits == 10 * SECOND) || (k == 9 && 100 * SECOND <= digits <= 100 * SECOND + 9)
  }

  lemma LongFraction(digits: nat, k: nat, p: nat)
    requires 7 <= k <= 9 && p == Pow10(k) && digits < p
    ensures Microseconds(digits) == Rounded(digits, k) <==> digits == 0 || (10 * digits >= p && !Missed(digits, k))
  {
    Powers();
    if k == 7 {
      assert Rounded(digits, k) == (digits + 5) / 10;
    } else if k == 8 {
      assert Rounded(digits, k) == (digits + 50) / 100;
    } else {
      assert Rounded(digits, k) == (digits + 500) / 1000;
    }
  }

  lemma ShortFraction(digits: nat, k: nat, p: nat)
    requires 1 <= k <= 6 && p == Pow10(k) && digits < p
    ensures Microseconds(digits) == Rounded(digits, k) <==> digits == 0 || 10 * digits >= p
  {
    Powers();
    if k == 1 {
      assert Rounded(digits, k) == digits * 100000;
    } else if k == 2 {
      assert Rounded(digits, k) == digits * 10000;
    } else if k == 3 {
      assert Rounded(digits, k) == digits * 1000;
    } else if k == 4 {
      assert Rounded(digits, k) == digits * 100;
    } else if k == 5 {
      assert Rounded(digits, k) == digits * 10;
    } else {
      assert Rounded(digits, k) == digits;
    }
  }

  /**
   The fraction is read correctly exactly when it is zero or starts with a digit other than zero,
   and is not one of the eleven numbers that the digit count misses.
   */
  lemma FractionIsRoundedIff(digits: nat, k: nat)
    requires 1 <= k <= 9 && digits < Pow10(k)
    ensures Microseconds(digits) == Rounded(digits, k) <==>
            digits == 0 || (digits >= Pow10(k - 1) && !Missed(digits, k))
  {
    assert Pow10(k) == 10 * Pow10(k - 1);
    if k <= 6 {
      ShortFraction(digits, k, Pow10(k));
    } else {
      LongFraction(digits, k, Pow10(k));
    }
  }

  // ---------------------------------------------------------------- the pattern

  /** The groups of the pattern; the last two are empty when they are left out. */
  datatype Parts = Parts(negative: bool, hours: string, minutes: string, seconds: string, fraction: string)

  predicate IsDigit(c: char) {
    '0' <= c <= '9'
  }

  predicate Digits(s: string, least: nat, most: nat) {
    least <= |s| <= most && forall i :: 0 <= i < |s| ==> IsDigit(s[i])
  }

  predicate WellFormed(p: Parts) {
    && Digits(p.hours, 1, 3) && Digits(p.minutes, 1, 2) && Digits(p.seconds, 0, 2) && Digits(p.fraction, 0, 9)
    && (p.seconds == "" ==> p.fraction == "")
  }

  /** The text the pattern describes. */
  function Text(p: Parts): string {
    if p.negative then "-" + Unsigned(p) else Unsigned(p)
  }

  function Unsigned(p: Parts): string {
    p.hours + (":" + AfterHours(p.minutes, p.seconds, p.fraction))
  }

  function AfterHours(minutes: string, seconds: string, fraction: string): string {
    minutes + if seconds == "" then "" else ":" + AfterMinutes(seconds, fraction)
  }

  function AfterMinutes(seconds: string, fraction: string): string {
    seconds + if fraction == "" then "" else "." + fraction
  }

  /** A text cut after the digits it starts with. */
  function Span(t: string): (r: (string, string))
    ensures r.0 + r.1 == t && Digits(r.0, 0, |t|) && (r.1 != "" ==> !IsDigit(r.1[0]))
  {
    if t == "" || !IsDigit(t[0]) then ("", t)
    else
      var (digits, rest) := Span(t[1..]);
      assert t == [t[0]] + t[1..];
      ([t[0]] + digits, rest)
  }

  predicate StartsWith(t: string, mark: char) {
    t != "" && t[0] == mark
  }

  /** The groups of the text if it has the form of the pattern: each takes all the digits there are. */
  function Match(s: string): (r: Option<Parts>)
    ensures r.Some? ==> WellFormed(r.value) && Text(r.value) == s
  {
    if StartsWith(s, '-') then
      match MatchHours(s[1..])
      case None => None
      case Some(p) => assert s == "-" + s[1..]; Some(p.(negative := true))
    else MatchHours(s)
  }

  function MatchHours(t: string): (r: Option<Parts>)
    ensures r.Some? ==> WellFormed(r.value) && !r.value.negative && Unsigned(r.value) == t
  {
    var (digits, rest) := Span(t);
    if !(1 <= |digits| <= 3) || !StartsWith(rest, ':') then None
    else
      assert rest == ":" + rest[1..];
      match MatchMinutes(rest[1..])
      case None => None
      case Some((m, s, f)) => Some(Parts(false, digits, m, s, f))
  }

  function MatchMinutes(t: string): (r: Option<(string, string, string)>)
    ensures r.Some? ==> var (m, s, f) := r.value; WellFormed(Parts(false, "0", m, s, f)) && AfterHours(m, s, f) == t
  {
    var (digits, rest) := Span(t);
    if !(1 <= |digits| <= 2) then None
    else if rest == "" then assert digits + rest == digits; Some((digits, "", ""))
    else if rest[0] != ':' then None
    else
      assert rest == ":" + rest[1..];
      match MatchSeconds(rest[1..])
      case None => None
      case Some((s, f)) => Some((digits, s, f))
  }

  function MatchSeconds(t: string): (r: Option<(string, string)>)
    ensures r.Some? ==> var (s, f) := r.value; s != "" && Digits(s, 1, 2) && Digits(f, 0, 9) && AfterMinutes(s, f) == t
  {
    var (digits, rest) := Span(t);
    if !(1 <= |digits| <= 2) then None
    else if rest == "" then assert digits + rest == digits; Some((digits, ""))
    else if rest[0] != '.' || !Digits(rest[1..], 1, 9) then None
    else assert rest == "." + rest[1..]; Some((digits, rest[1..]))
  }

  lemma {:induction false} SpanOf(digits: string, rest: string)
    requires Digits(digits, 0, |digits|) && (rest != "" ==> !IsDigit(rest[0]))
    ensures Span(digits + rest) == (digits, rest)
  {
    if digits == "" {
      assert digits + rest == rest;
    } else {
      SpanOf(digits[1..], rest);
      assert (digits + rest)[1..] == digits[1..] + rest;
      assert digits == [digits[0]] + digits[1..];
    }
  }

  /** The text after the digits. */
  lemma SpanMark(digits: string, mark: char, rest: string)
    requires Digits(digits, 0, |digits|) && !IsDigit(mark)
    ensures var (d, r) := Span(digits + ([mark] + rest));
            d == digits && StartsWith(r, mark) && r[1..] == rest
  {
    SpanOf(digits, [mark] + rest);
  }

  lemma MatchesSeconds(p: Parts)
    requires WellFormed(p) && p.seconds != ""
    ensures MatchSeconds(AfterMinutes(p.seconds, p.fraction)) == Some((p.seconds, p.fraction))
  {
    if p.fraction == "" {
      SpanOf(p.seconds, "");
    } else {
      SpanMark(p.seconds, '.', p.fraction);
    }
  }

  lemma MatchesMinutes(p: Parts)
    requires WellFormed(p)
    ensures MatchMinutes(AfterHours(p.minutes, p.seconds, p.fraction)) == Some((p.minutes, p.seconds, p.fraction))
  {
    if p.seconds == "" {
      SpanOf(p.minutes, "");
    } else {
      MatchesSeconds(p);
      SpanMark(p.minutes, ':', AfterMinutes(p.seconds, p.fraction));
    }
  }

  lemma MatchesHours(p: Parts)
    requires WellFormed(p)
    ensures MatchHours(Unsigned(p)) == Some(p.(negative := false))
  {
    MatchesMinutes(p);
    SpanMark(p.hours, ':', AfterHours(p.minutes, p.seconds, p.fraction));
  }

  lemma MatchesItsText(p: Parts)
    requires WellFormed(p)
    ensures Match(Text(p)) == Some(p)
  {
    MatchesHours(p);
    if p.negative {
      assert Text(p)[1..] == Unsigned(p);
    } else {
      assert IsDigit(Unsigned(p)[0]);
    }
  }

  /** The matcher accepts exactly the texts of the pattern, each with its only groups. */
  lemma MatchIff(s: string, p: Parts)
    ensures Match(s) == Some(p) <==> WellFormed(p) && s == Text(p)
  {
    if WellFormed(p) {
      MatchesItsText(p);
    }
  }

  // ---------------------------------------------------------------- numbers in texts

  /** strconv.Atoi on at most nine digits; zero where there are none. */
  function Number(s: string): nat
    requires Digits(s, 0, |s|)
  {
    if s == "" then 0 else 10 * Number(s[..|s| - 1]) + (s[|s| - 1] - '0') as nat
  }

  /** The last k decimal digits of a number. */
  function Decimal(n: nat, k: nat): (s: string)
    ensures Digits(s, k, k)
  {
    if k == 0 then "" else Decimal(n / 10, k - 1) + ['0' + (n % 10) as char]
  }

  lemma {:induction false} DecimalReads(n: nat, k: nat)
    requires n < Pow10(k)
    ensures Number(Decimal(n, k)) == n
  {
    if k > 0 {
      DecimalReads(n / 10, k - 1);
      var s := Decimal(n, k);
      assert s[..|s| - 1] == Decimal(n / 10, k - 1);
    }
  }

  lemma {:induction false} NumberBound(s: string)
    requires Digits(s, 0, |s|)
    ensures Number(s) < Pow10(|s|)
  {
    if s != "" {
      NumberBound(s[..|s| - 1]);
    }
  }

  // ---------------------------------------------------------------- reading and printing

  /** The time the groups stand for, once the fraction has been scaled: carried over, and cut off at 838:59:59. */
  function Assembled(negative: bool, h: nat, m: nat, s: nat, microseconds: nat): Timespan {
    var carry := microseconds == SECOND;
    var us, s' := if carry then 0 else microseconds, if carry then s + 1 else s;
    var m', s'' := if s' == 60 then m + 1 else m, if s' == 60 then 0 else s';
    var h', m'' := if m' == 60 then h + 1 else h, if m' == 60 then 0 else m';
    if h' > 838 || (h' == 838 && m'' == 59 && s'' == 59) then Timespan(negative, 838, 59, 59, 0)
    else Timespan(negative, h', m'', s'', us)
  }

  function FromParts(p: Parts): Option<Timespan>
    requires WellFormed(p)
  {
    var m, s := Number(p.minutes), Number(p.seconds);
    if m > 59 || s > 59 then None
    else Some(Assembled(p.negative, Number(p.hours), m, s, Microseconds(Number(p.fraction))))
  }

  function Parse(text: string): Option<Timespan> {
    match Match(text)
    case None => None
    case Some(p) => FromParts(p)
  }

  method StringToTimespan(text: string) returns (r: Option<Timespan>)
    ensures r == Parse(text)
  {
    var matches := Match(text);
    if matches.None? {
      return None;
    }
    var p := matches.value;
    var hours, minutes := Number(p.hours), Number(p.minutes);
    if minutes > 59 {
      return None;
    }
    var seconds := Number(p.seconds);
    if seconds > 59 {
      return None;
    }
    var t := Assemble(text[0] == '-', hours, minutes, seconds, Number(p.fraction));
    return Some(t);
  }

  method Assemble(negative: bool, h: nat, m: nat, s: nat, digits: nat) returns (t: Timespan)
    requires m <= 59 && s <= 59
    ensures t == Assembled(negative, h, m, s, Microseconds(digits))
  {
    var hours, minutes, seconds := h, m, s;
    var microseconds := ScaleFraction(digits);
    if digits >= SECOND {
      if microseconds == SECOND {
        microseconds := 0;
        seconds := seconds + 1;
      }
      if seconds == 60 {
        seconds := 0;
        minutes := minutes + 1;
      }
      if minutes == 60 {
        minutes := 0;
        hours := hours + 1;
      }
    }
    if hours > 838 {
      hours, minutes, seconds := 838, 59, 59;
    }
    if hours == 838 && minutes == 59 && seconds == 59 {
      microseconds := 0;
    }
    return Timespan(negative, hours, minutes, seconds, microseconds);
  }

  /** Timespans whose fraction has six digits without a leading zero, or none. */
  predicate Printable(t: Timespan) {
    t.microseconds == 0 || t.microseconds >= 100000
  }

  function Least(a: int, b: int): int {
    if a < b then a else b
  }

  lemma ScaledRange(digits: string)
    requires Digits(digits, 0, 9)
    ensures var us := Microseconds(Number(digits)); us == 0 || 100000 <= us <= SECOND
  {
    NumberBound(digits);
    Grows(|digits|, 9);
    Powers();
    assert Number(digits) < 1000 * SECOND;
  }

  lemma AssembledMeans(negative: bool, h: nat, m: nat, s: nat, us: nat)
    requires m <= 59 && s <= 59 && (us == 0 || 100000 <= us <= SECOND)
    ensures var t := Assembled(negative, h, m, s, us);
            && Valid(t) && Printable(t) && t.negative == negative
            && AsMicroseconds(t) == (if negative then -1 else 1) * Least(h * HOUR + m * MINUTE + s * SECOND + us, MAXIMUM)
  {
  }

  /** The microseconds the groups add up to, however many they are. */
  function Total(p: Parts): nat
    requires WellFormed(p)
  {
    Number(p.hours) * HOUR + Number(p.minutes) * MINUTE + Number(p.seconds) * SECOND + Microseconds(Number(p.fraction))
  }

  /** A text of the pattern is read unless it has sixty minutes or seconds, as the sum of its groups cut off at the maximum. */
  lemma ParseMeans(text: string, p: Parts)
    requires WellFormed(p) && text == Text(p)
    ensures Parse(text).Some? <==> Number(p.minutes) <= 59 && Number(p.seconds) <= 59
    ensures Parse(text).Some? ==>
              var t := Parse(text).value;
              && Valid(t) && Printable(t) && t.negative == p.negative
              && AsMicroseconds(t) == (if p.negative then -1 else 1) * Least(Total(p), MAXIMUM)
  {
    MatchesItsText(p);
    assert Parse(text) == FromParts(p);
    if Parse(text).Some? {
      ScaledRange(p.fraction);
      AssembledMeans(p.negative, Number(p.hours), Number(p.minutes), Number(p.seconds), Microseconds(Number(p.fraction)));
    }
  }

  /** No other text is read. */
  lemma ParseRejects(text: string)
    ensures Parse(text).Some? ==> exists p :: WellFormed(p) && text == Text(p)
  {
    if Match(text).Some? {
      assert WellFormed(Match(text).value) && Text(Match(text).value) == text;
    }
  }

  lemma {:induction false} Grows(a: nat, b: nat)
    requires a <= b
    ensures Pow10(a) <= Pow10(b)
  {
    if a < b {
      Grows(a, b - 1);
    }
  }

  /** The time as fmt prints it: two digits at least for the fields, six for a fraction that is not zero. */
  function Print(t: Timespan): string
    requires Valid(t)
  {
    var fraction := if t.microseconds == 0 then "" else "." + Decimal(t.microseconds, 6);
    var fields := Decimal(t.hours, if t.hours < 100 then 2 else 3) + (":" + (Decimal(t.minutes, 2) + (":" + (Decimal(t.seconds, 2) + fraction))));
    if t.negative then "-" + fields else fields
  }

  function PrintedParts(t: Timespan): Parts
    requires Valid(t)
  {
    Parts(t.negative, Decimal(t.hours, if t.hours < 100 then 2 else 3), Decimal(t.minutes, 2), Decimal(t.seconds, 2),
          if t.microseconds == 0 then "" else Decimal(t.microseconds, 6))
  }

  lemma PrintedMatches(t: Timespan)
    requires Valid(t)
    ensures Match(Print(t)) == Some(PrintedParts(t))
  {
    var p := PrintedParts(t);
    assert Print(t) == Text(p);
    MatchesItsText(p);
  }

  lemma PrintedNumbers(t: Timespan)
    requires Valid(t)
    ensures var p := PrintedParts(t);
            Number(p.hours) == t.hours && Number(p.minutes) == t.minutes && Number(p.seconds) == t.seconds
            && Number(p.fraction) == t.microseconds
  {
    Powers();
    DecimalReads(t.hours, if t.hours < 100 then 2 else 3);
    DecimalReads(t.minutes, 2);
    DecimalReads(t.seconds, 2);
    DecimalReads(t.microseconds, 6);
  }

  /** Printing a time and reading it again gives the same time exactly when its fraction has no leading zero. */
  lemma RoundTripIff(t: Timespan)
    requires Valid(t)
    ensures Parse(Print(t)) == Some(t) <==> Printable(t)
  {
    ReadsBack(t);
    AssembledIff(t);
  }

  lemma ReadsBack(t: Timespan)
    requires Valid(t)
    ensures Parse(Print(t)) == Some(Assembled(t.negative, t.hours, t.minutes, t.seconds, Microseconds(t.microseconds)))
  {
    PrintedMatches(t);
    PrintedNumbers(t);
  }

  lemma AssembledIff(t: Timespan)
    requires Valid(t)
    ensures Assembled(t.negative, t.hours, t.minutes, t.seconds, Microseconds(t.microseconds)) == t <==> Printable(t)
  {
  }

  /** Marshalling a time as microseconds, unmarshalling it as a text and reading that compares equal for the same times only. */
  lemma MarshalKeepsIff(t: Timespan)
    requires Valid(t)
    ensures var u := MicrosecondsToTimespan(AsMicroseconds(t));
            && Valid(u) && Parse(Print(u)).Some?
            && (AsMicroseconds(Parse(Print(u)).value) == AsMicroseconds(t) <==> Printable(t))
  {
    CountThenSplit(t);
    SplitThenCount(AsMicroseconds(t));
    var u := MicrosecondsToTimespan(AsMicroseconds(t));
    ReadsBack(u);
    CountIff(u);
  }

  lemma CountIff(t: Timespan)
    requires Valid(t)
    ensures AsMicroseconds(Assembled(t.negative, t.hours, t.minutes, t.seconds, Microseconds(t.microseconds))) == AsMicroseconds(t)
            <==> Printable(t)
  {
    var us := Microseconds(t.microseconds);
    assert us != t.microseconds <==> !Printable(t);
    AssembledMeans(t.negative, t.hours, t.minutes, t.seconds, us);
  }

  // ---------------------------------------------------------------- integers

  /** The microseconds the code makes of an integer written as HHMMSS; Go's division rounds toward zero. */
  function IntMicroseconds(v: int): Option<int> {
    var abs := Abs(v);
    if abs <= 59 then Some(v * SECOND)
    else if 100 <= abs <= 9999 then
      var m, s := abs / 100, abs % 100;
      if m <= 59 && s <= 59 then Some(if v < 0 then -1 * (s * SECOND) + m * MINUTE else s * SECOND + m * MINUTE) else None
    else if 10000 <= abs <= 9999999 then
      var h, m, s := if v < 0 then -(abs / 10000) else abs / 10000, (abs / 100) % 100, abs % 100;
      if m <= 59 && s <= 59 then Some(s * SECOND + m * MINUTE + h * HOUR) else None
    else None
  }

  /** The time that HHMMSS with a sign stands for. */
  function Signed(v: int): int {
    var abs := Abs(v);
    (if v < 0 then -1 else 1) * ((abs / 10000) * HOUR + ((abs / 100) % 100) * MINUTE + (abs % 100) * SECOND)
  }

  /** Numbers of microseconds become the same time exactly when they are the same once cut off. */
  lemma SameTimespanIff(a: int, b: int)
    ensures MicrosecondsToTimespan(a) == MicrosecondsToTimespan(b) <==> Clamp(a) == Clamp(b)
  {
    SplitThenCount(a);
    SplitThenCount(b);
  }

  /**
   The time of a negative integer has its sign in all fields exactly when it has seconds alone or
   hours alone, or lies so far out that the time is cut off at the minimum with or without it.
   */
  lemma IntSignIff(v: int)
    requires IntMicroseconds(v).Some?
    ensures MicrosecondsToTimespan(IntMicroseconds(v).value) == MicrosecondsToTimespan(Signed(v)) <==>
            v >= -59 || Abs(v) % 10000 == 0 || v <= -8400000 || v == -8390001
  {
    SameTimespanIff(IntMicroseconds(v).value, Signed(v));
    if v >= -59 {
      SmallOrPositive(v);
    } else if v > -10000 {
      MiddleSign(v, -v / 100, -v % 100);
    } else {
      LongSign(v, -v / 10000, (-v / 100) % 100, -v % 100);
    }
  }

  lemma LongSign(v: int, h: int, m: int, s: int)
    requires IntMicroseconds(v).Some? && v <= -10000
    requires h == -v / 10000 && m == (-v / 100) % 100 && s == -v % 100
    ensures Clamp(IntMicroseconds(v).value) == Clamp(Signed(v)) <==> -v % 10000 == 0 || v <= -8400000 || v == -8390001
  {
    DigitsOf(-v, h, m, s);
    LongValues(v, h, m, s);
    LongSignIff(h, m, s);
    FarOut(-v, h, m, s);
  }

  lemma LongValues(v: int, h: int, m: int, s: int)
    requires IntMicroseconds(v).Some? && v <= -10000
    requires h == -v / 10000 && m == (-v / 100) % 100 && s == -v % 100
    ensures m <= 59 && s <= 59 && IntMicroseconds(v).value == s * SECOND + m * MINUTE - h * HOUR
    ensures Signed(v) == -(h * HOUR + m * MINUTE + s * SECOND)
  {
    assert Abs(v) == -v;
  }

  lemma FarOut(abs: int, h: int, m: int, s: int)
    requires abs == 10000 * h + 100 * m + s && 0 <= m < 100 && 0 <= s < 100
    ensures h >= 840 || (h == 839 && m == 0 && s == 1) <==> abs >= 8400000 || abs == 8390001
  {
  }

  lemma SmallOrPositive(v: int)
    requires IntMicroseconds(v).Some? && v >= -59
    ensures IntMicroseconds(v).value == Signed(v)
  {
    var abs := Abs(v);
    if abs < 100 {
      assert abs / 10000 == 0 && (abs / 100) % 100 == 0 && abs % 100 == abs;
    } else if abs < 10000 {
      assert abs / 10000 == 0 && (abs / 100) % 100 == abs / 100;
    }
  }

  lemma MiddleSign(v: int, m: int, s: int)
    requires -9999 <= v <= -100 && m == -v / 100 && s == -v % 100 && m <= 59 && s <= 59
    ensures Clamp(-1 * (s * SECOND) + m * MINUTE) != Clamp(Signed(v)) && Abs(v) % 10000 != 0
    ensures IntMicroseconds(v) == Some(-1 * (s * SECOND) + m * MINUTE)
  {
    assert Abs(v) / 10000 == 0 && (Abs(v) / 100) % 100 == m >= 1;
    assert Signed(v) == -(m * MINUTE + s * SECOND);
  }

  lemma DigitsOf(abs: int, h: int, m: int, s: int)
    requires abs >= 10000 && h == abs / 10000 && m == (abs / 100) % 100 && s == abs % 100
    ensures abs == 10000 * h + 100 * m + s && 0 <= m < 100 && 0 <= s < 100
    ensures m == 0 && s == 0 <==> abs % 10000 == 0
  {
    assert abs / 100 == 100 * h + m && abs == 100 * (abs / 100) + s;
  }

  lemma LongSignIff(h: int, m: int, s: int)
    requires h >= 1 && 0 <= m <= 59 && 0 <= s <= 59
    ensures Clamp(s * SECOND + m * MINUTE - h * HOUR) == Clamp(-(h * HOUR + m * MINUTE + s * SECOND)) <==>
            (m == 0 && s == 0) || h >= 840 || (h == 839 && m == 0 && s == 1)
  {
  }

  // ---------------------------------------------------------------- converting texts

  /** strconv.ParseFloat and strconv.ParseInt. */
  datatype Parsers = Parsers(parseFloat: string -> Option<real>, parseInt: string -> Option<int>)

  function Truncate(v: real): int {
    if v >= 0.0 then v.Floor else -(-v).Floor
  }

  /** math.Round: halves away from zero. */
  function Round(v: real): int {
    if v >= 0.0 then (v + 0.5).Floor else -(-v + 0.5).Floor
  }

  /** The microseconds the code makes of a number written as HHMMSS with a fraction. */
  function FloatMicroseconds(v: real): Option<int> {
    var n := Truncate(v);
    var us := Round((v - n as real) * 1000000.0);
    match IntMicroseconds(n)
    case None => None
    case Some(x) => Some(x + us)
  }

  /** ConvertToTimespanImpl of a text: the pattern first, then a number. */
  function ReadText(ps: Parsers, text: string): Option<Timespan> {
    match Parse(text)
    case Some(t) => Some(t)
    case None =>
      var us := if '.' in text then
                  match ps.parseFloat(text) case None => None case Some(v) => FloatMicroseconds(v)
                else
                  match ps.parseInt(text) case None => None case Some(v) => IntMicroseconds(v);
      match us
      case None => None
      case Some(n) => Some(MicrosecondsToTimespan(n))
  }

  lemma ReadTextValid(ps: Parsers, text: string)
    requires ReadText(ps, text).Some?
    ensures Valid(ReadText(ps, text).value)
    ensures Parse(text).Some? || '.' !in text ==> Printable(ReadText(ps, text).value)
  {
    if Parse(text).Some? {
      ParseMeans(text, Match(text).value);
    } else if '.' in text {
      SplitThenCount(FloatMicroseconds(ps.parseFloat(text).value).value);
    } else {
      var v := ps.parseInt(text).value;
      SplitThenCount(IntMicroseconds(v).value);
      WholeSeconds(v);
    }
  }

  lemma WholeSeconds(v: int)
    requires IntMicroseconds(v).Some?
    ensures MicrosecondsToTimespan(IntMicroseconds(v).value).microseconds == 0
  {
    var k := IntSeconds(v);
    SecondsSplit(k);
  }

  lemma IntSeconds(v: int) returns (k: int)
    requires IntMicroseconds(v).Some?
    ensures IntMicroseconds(v).value == k * SECOND
  {
    var abs := Abs(v);
    if abs <= 59 {
      k := v;
    } else if abs <= 9999 {
      k := 60 * (abs / 100) + if v < 0 then -(abs % 100) else abs % 100;
    } else {
      k := 60 * ((abs / 100) % 100) + abs % 100 + 3600 * if v < 0 then -(abs / 10000) else abs / 10000;
    }
  }

  lemma SecondsSplit(k: int)
    ensures MicrosecondsToTimespan(k * SECOND).microseconds == 0
  {
    var c := if k < -3020399 then -3020399 else if k > 3020399 then 3020399 else k;
    assert Clamp(k * SECOND) == c * SECOND;
    Divide(Abs(c * SECOND), 0, Abs(c), SECOND);
  }

  /** Convert of a text. */
  function Convert(ps: Parsers, text: string): Option<string> {
    match ReadText(ps, text)
    case None => None
    case Some(t) => ReadTextValid(ps, text); Some(Print(t))
  }

  lemma PrintDiffers(t: Timespan, u: Timespan)
    requires Valid(t) && Valid(u) && Print(t) == Print(u)
    ensures t.microseconds == u.microseconds
  {
    PrintedMatches(t);
    PrintedMatches(u);
    PrintedNumbers(t);
    PrintedNumbers(u);
  }

  /**
   Converting a converted text changes nothing exactly when the fraction of the time it stands for
   has no leading zero. Texts of the pattern and texts without a point always stand for such a time.
   */
  lemma ConvertTwiceIff(ps: Parsers, text: string)
    requires ReadText(ps, text).Some?
    ensures Convert(ps, text).Some?
    ensures Convert(ps, Convert(ps, text).value) == Convert(ps, text) <==> Printable(ReadText(ps, text).value)
    ensures Parse(text).Some? || '.' !in text ==> Printable(ReadText(ps, text).value)
  {
    ReadTextValid(ps, text);
    var t := ReadText(ps, text).value;
    ReadsBack(t);
    RoundTripIff(t);
    AssembledIff(t);
    var u := Parse(Print(t)).value;
    ReadTextValid(ps, Print(t));
    assert Convert(ps, Print(t)) == Some(Print(u));
    if Print(u) == Print(t) {
      PrintDiffers(t, u);
    }
  }

  /** The text 1.05 becomes 00:00:01.050000, and that becomes 00:00:01.500000. */
  lemma FloatTextChanges(ps: Parsers)
    requires ps.parseFloat("1.05") == Some(1.05)
    ensures ReadText(ps, "1.05") == Some(Timespan(false, 0, 0, 1, 50000))
    ensures Convert(ps, "1.05").Some? && Parse(Convert(ps, "1.05").value) == Some(Timespan(false, 0, 0, 1, 500000))
  {
    SpanOf("1", ".05");
    assert "1" + ".05" == "1.05" && "1.05"[1] == '.';
    assert Parse("1.05") == None;
    assert FloatMicroseconds(1.05) == Some(1050000);
    var t := Timespan(false, 0, 0, 1, 50000);
    assert MicrosecondsToTimespan(1050000) == t;
    ReadsBack(t);
  }
}
