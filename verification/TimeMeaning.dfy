/** What the TIME type prints, which numbers it accepts and as what, stated by their digits. */
module TimeMeaning {
  import opened Wrappers
  import opened TimeType

  // ---------------------------------------------------------------- the range

  /** A number out of range becomes the nearest one that is in it. */
  lemma ClampIsNearest(v: int, w: int)
    requires -MAXIMUM <= w <= MAXIMUM
    ensures -MAXIMUM <= Clamp(v) <= MAXIMUM
    ensures v <= Clamp(v) <= w || w <= Clamp(v) <= v || (Clamp(v) == v)
  {
  }

  // ---------------------------------------------------------------- printing

  /** The fields a text shows: two digits each, three for hours from a hundred on, and six for a fraction unless it is zero. */
  predicate Shows(p: Parts, t: Timespan)
    requires WellFormed(p)
  {
    && p.negative == t.negative
    && |p.hours| == (if t.hours < 100 then 2 else 3) && Number(p.hours) == t.hours
    && |p.minutes| == 2 && Number(p.minutes) == t.minutes
    && |p.seconds| == 2 && Number(p.seconds) == t.seconds
    && (if t.microseconds == 0 then p.fraction == "" else |p.fraction| == 6 && Number(p.fraction) == t.microseconds)
  }

  /** A time is printed as the text that shows its fields, and there is one such text. */
  lemma PrintIff(t: Timespan, text: string)
    requires Valid(t)
    ensures Print(t) == text <==> exists p :: WellFormed(p) && Shows(p, t) && text == Text(p)
  {
    var q := PrintedParts(t);
    PrintedNumbers(t);
    assert Print(t) == Text(q) && WellFormed(q) && Shows(q, t);
    if p :| WellFormed(p) && Shows(p, t) && text == Text(p) {
      SameDigits(p.hours, q.hours);
      SameDigits(p.minutes, q.minutes);
      SameDigits(p.seconds, q.seconds);
      SameDigits(p.fraction, q.fraction);
    }
  }

  /** Digits are known by their number and how many they are. */
  lemma {:induction false} SameDigits(a: string, b: string)
    requires Digits(a, 0, |a|) && Digits(b, 0, |b|) && |a| == |b| && Number(a) == Number(b)
    ensures a == b
  {
    if a != "" {
      var n := |a| - 1;
      assert a[n] == b[n];
      SameDigits(a[..n], b[..n]);
      assert a == a[..n] + [a[n]] && b == b[..n] + [b[n]];
    }
  }

  // ---------------------------------------------------------------- fractions

  /** The eleven fractions that are misread become a whole second. */
  lemma MissedIsASecond(digits: nat, k: nat)
    requires Missed(digits, k)
    ensures Microseconds(digits) == SECOND
  {
  }

  // ---------------------------------------------------------------- integers

  /** An integer without its sign is HHHMMSS: hours, then two digits of minutes and two of seconds. */
  predicate Spells(v: int, h: int, m: int, s: int) {
    h >= 0 && 0 <= m < 100 && 0 <= s < 100 && (v == 10000 * h + 100 * m + s || v == -(10000 * h + 100 * m + s))
  }

  lemma SpelledDigits(v: int, h: int, m: int, s: int)
    requires Spells(v, h, m, s)
    ensures Abs(v) == 10000 * h + 100 * m + s
    ensures Abs(v) / 10000 == h && (Abs(v) / 100) % 100 == m && Abs(v) % 100 == s
  {
    var abs := Abs(v);
    assert abs / 100 == 100 * h + m;
    assert abs / 10000 == (100 * h + m) / 100;
  }

  /** Integers of up to three digits of hours, with less than sixty minutes and seconds, are accepted, and no others. */
  lemma IntAcceptedIff(v: int, h: int, m: int, s: int)
    requires Spells(v, h, m, s)
    ensures IntMicroseconds(v).Some? <==> h <= 999 && m <= 59 && s <= 59
  {
    SpelledDigits(v, h, m, s);
  }

  /**
   What an accepted integer becomes: the time it spells if it is not negative; of a negative one only
   the seconds are negative where there are no hours, and only the hours where there are.
   */
  lemma IntValue(v: int, h: int, m: int, s: int)
    requires Spells(v, h, m, s) && IntMicroseconds(v).Some?
    ensures IntMicroseconds(v).value ==
            if v >= 0 then h * HOUR + m * MINUTE + s * SECOND
            else if h == 0 then m * MINUTE - s * SECOND
            else m * MINUTE + s * SECOND - h * HOUR
  {
    SpelledDigits(v, h, m, s);
  }

  // ---------------------------------------------------------------- floating-point numbers

  /** `n` is the number without its fraction. */
  predicate Whole(v: real, n: int) {
    if v >= 0.0 then n as real <= v < n as real + 1.0 else n as real - 1.0 < v <= n as real
  }

  /** `n` is an integer nearest to the number. */
  predicate Nearest(v: real, n: int) {
    -0.5 <= v - n as real <= 0.5
  }

  /** A number is accepted when its whole part is, and adds its fraction, in microseconds rounded to the nearest. */
  lemma FloatValue(v: real)
    ensures Whole(v, Truncate(v))
    ensures FloatMicroseconds(v).Some? <==> IntMicroseconds(Truncate(v)).Some?
    ensures FloatMicroseconds(v).Some? ==>
              Nearest((v - Truncate(v) as real) * 1000000.0, FloatMicroseconds(v).value - IntMicroseconds(Truncate(v)).value)
  {
    RoundNearest((v - Truncate(v) as real) * 1000000.0);
  }

  lemma RoundNearest(v: real)
    ensures Nearest(v, Round(v))
  {
  }

  // ---------------------------------------------------------------- texts

  /** The text is a time of the pattern. */
  ghost predicate IsTime(text: string) {
    exists p :: WellFormed(p) && text == Text(p) && Number(p.minutes) <= 59 && Number(p.seconds) <= 59
  }

  /** The text is read as this number of microseconds: as a number with a fraction if it has a point, as an integer otherwise. */
  predicate IsNumber(ps: Parsers, text: string, us: int) {
    if '.' in text then ps.parseFloat(text).Some? && FloatMicroseconds(ps.parseFloat(text).value) == Some(us)
    else ps.parseInt(text).Some? && IntMicroseconds(ps.parseInt(text).value) == Some(us)
  }

  /** Which texts are accepted: the times of the pattern, and the numbers. A time of the pattern is read as such. */
  lemma ReadTextIff(ps: Parsers, text: string)
    ensures Parse(text).Some? <==> IsTime(text)
    ensures IsTime(text) ==> ReadText(ps, text) == Parse(text)
    ensures !IsTime(text) ==> forall t :: ReadText(ps, text) == Some(t) <==> exists us :: IsNumber(ps, text, us) && t == MicrosecondsToTimespan(us)
  {
    if Match(text).Some? {
      var q := Match(text).value;
      assert WellFormed(q) && Text(q) == text;
      ParseMeans(text, q);
    }
    if p :| WellFormed(p) && text == Text(p) && Number(p.minutes) <= 59 && Number(p.seconds) <= 59 {
      ParseMeans(text, p);
    }
    if !IsTime(text) && ReadText(ps, text).Some? {
      var us := if '.' in text then FloatMicroseconds(ps.parseFloat(text).value).value else IntMicroseconds(ps.parseInt(text).value).value;
      assert IsNumber(ps, text, us);
    }
  }
}
