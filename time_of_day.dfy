/**
 * Times of day in whole microseconds after midnight, and the parser for the
 * recording start time: `datetime.strptime(text, "%H:%M:%S.%f")` followed by
 * `.time()`. The date 1900-01-01 that strptime attaches is discarded by
 * `.time()`, so only the time of day is kept. A second is 1_000_000 us and a
 * day 86_400_000_000 us.
 */
module TimeOfDay {
  import opened Frame

  /** The time of day `x` microseconds after a midnight: `x` less whole days. */
  function WrapDay(x: nat): (r: nat)
    ensures r < 86_400_000_000
    decreases x
  {
    if x < 86_400_000_000 then x else WrapDay(x - 86_400_000_000)
  }

  /** Taking whole days off is the remainder modulo one day. */
  lemma {:induction false} WrapDayIsMod(x: nat)
    ensures WrapDay(x) == x % 86_400_000_000
    decreases x
  {
    if x >= 86_400_000_000 {
      WrapDayIsMod(x - 86_400_000_000);
    }
  }

  /** Adding `d` to a time of day and wrapping is adding `d` to the unwrapped time. */
  lemma WrapDayAdd(x: nat, d: nat)
    ensures WrapDay(WrapDay(x) + d) == WrapDay(x + d)
  {
    WrapDayIsMod(x);
    WrapDayIsMod(x + d);
    WrapDayIsMod(WrapDay(x) + d);
    var q := x / 86_400_000_000;
    assert x + d == q * 86_400_000_000 + (WrapDay(x) + d);
  }

  predicate IsDigit(c: char) {
    '0' <= c <= '9'
  }

  predicate AllDigits(s: string) {
    forall i | 0 <= i < |s| :: IsDigit(s[i])
  }

  function Pow10(n: nat): (p: nat)
    ensures p >= 1
  {
    if n == 0 then 1 else 10 * Pow10(n - 1)
  }

  /** The number a string of decimal digits denotes. */
  function DigitsValue(s: string): (v: nat)
    requires AllDigits(s)
    ensures v < Pow10(|s|)
  {
    if s == [] then 0
    else DigitsValue(s[..|s| - 1]) * 10 + (s[|s| - 1] as int - '0' as int)
  }

  /** The length of the run of digits at the front of `s`. */
  function DigitRun(s: string): (n: nat)
    ensures n <= |s| && AllDigits(s[..n])
    ensures n < |s| ==> !IsDigit(s[n])
  {
    if s != [] && IsDigit(s[0]) then
      var n := 1 + DigitRun(s[1..]);
      assert s[..n] == [s[0]] + s[1..][..n - 1];
      n
    else 0
  }

  /**
   * One field of the format: a run of one to `width` digits that ends at the
   * separator `sep`; its value and the text after the separator.
   */
  function Field(s: string, width: nat, sep: char): Option<(nat, string)>
  {
    var n := DigitRun(s);
    if 1 <= n <= width && n < |s| && s[n] == sep then Some((DigitsValue(s[..n]), s[n + 1..])) else None
  }

  lemma FractionBound(f: string)
    requires 1 <= |f| <= 6 && AllDigits(f)
    ensures DigitsValue(f) * Pow10(6 - |f|) < 1_000_000
  {
    var v := DigitsValue(f);
    if |f| == 1 {
      assert v < 10 && Pow10(5) == 100_000;
    } else if |f| == 2 {
      assert v < 100 && Pow10(4) == 10_000;
    } else if |f| == 3 {
      assert v < 1_000 && Pow10(3) == 1_000;
    } else if |f| == 4 {
      assert v < 10_000 && Pow10(2) == 100;
    } else if |f| == 5 {
      assert v < 100_000 && Pow10(1) == 10;
    } else {
      assert v < 1_000_000 && Pow10(0) == 1;
    }
  }

  /** The fraction digits `f` as microseconds: "5" is 500000, "000123" is 123. */
  function FractionMicros(f: string): (us: nat)
    requires 1 <= |f| <= 6 && AllDigits(f)
    ensures us < 1_000_000
  {
    FractionBound(f);
    DigitsValue(f) * Pow10(6 - |f|)
  }

  /** The time of day `h`:`m`:`sec` plus `us` microseconds, in microseconds after midnight. */
  function ClockMicros(h: nat, m: nat, sec: nat, us: nat): nat {
    ((h * 60 + m) * 60 + sec) * 1_000_000 + us
  }

  /**
   * `strptime(s, "%H:%M:%S.%f").time()` in microseconds after midnight, or
   * None where strptime raises ValueError. The pattern matches the whole text:
   * hours, minutes and seconds are runs of one or two digits, the fraction a
   * run of one to six digits padded on the right to microseconds. The hour
   * pattern admits 0 to 23, the minute pattern 0 to 59; the second pattern
   * admits 60 and 61, but building the datetime then fails, so only 0 to 59
   * succeed.
   */
  function ParseTime(s: string): (r: Option<nat>)
    ensures r.Some? ==> r.value < 86_400_000_000
  {
    match Field(s, 2, ':')
    case None => None
    case Some((h, afterHours)) =>
      match Field(afterHours, 2, ':')
      case None => None
      case Some((m, afterMinutes)) =>
        match Field(afterMinutes, 2, '.')
        case None => None
        case Some((sec, f)) =>
          if !(1 <= |f| <= 6 && AllDigits(f)) then None
          else if h > 23 || m > 59 || sec > 59 then None
          else Some(ClockMicros(h, m, sec, FractionMicros(f)))
  }

  /** `x` in exactly `width` decimal digits, zero-padded on the left. */
  function Pad(x: nat, width: nat): (s: string)
    ensures |s| == width && AllDigits(s)
  {
    if width == 0 then []
    else
      var s := Pad(x / 10, width - 1) + [('0' as int + x % 10) as char];
      assert forall i | 0 <= i < width - 1 :: s[i] == Pad(x / 10, width - 1)[i];
      s
  }

  lemma {:induction false} PadValue(x: nat, width: nat)
    requires x < Pow10(width)
    ensures DigitsValue(Pad(x, width)) == x
  {
    if width > 0 {
      PadValue(x / 10, width - 1);
      var s := Pad(x, width);
      assert s[..|s| - 1] == Pad(x / 10, width - 1);
    }
  }

  /** The time of day as "HH:MM:SS.ffffff". */
  function Render(us: nat): string
    requires us < 86_400_000_000
  {
    var secs := us / 1_000_000;
    var mins := secs / 60;
    Pad(mins / 60, 2) + ":" + Pad(mins % 60, 2) + ":" + Pad(secs % 60, 2) + "." + Pad(us % 1_000_000, 6)
  }

  lemma {:induction false} DigitRunOfField(d: string, rest: string)
    requires AllDigits(d)
    requires rest != [] && !IsDigit(rest[0])
    ensures DigitRun(d + rest) == |d|
    decreases |d|
  {
    if d != [] {
      assert (d + rest)[1..] == d[1..] + rest;
      DigitRunOfField(d[1..], rest);
    }
  }

  lemma FieldOf(d: string, sep: char, rest: string, width: nat)
    requires AllDigits(d) && 1 <= |d| <= width && !IsDigit(sep)
    ensures Field(d + ([sep] + rest), width, sep) == Some((DigitsValue(d), rest))
  {
    var s := d + ([sep] + rest);
    DigitRunOfField(d, [sep] + rest);
    assert s[..|d|] == d && s[|d| + 1..] == rest;
  }

  lemma TextAssoc(h: string, m: string, sec: string, f: string)
    ensures h + ":" + m + ":" + sec + "." + f == h + (":" + (m + (":" + (sec + ("." + f)))))
  {
  }

  /**
   * A text of the form H:M:S.F, with one or two digits for H, M and S and one
   * to six for F, parses exactly when H, M and S are in range, to the time
   * they denote.
   */
  lemma ParseTimeFields(h: string, m: string, sec: string, f: string)
    requires AllDigits(h) && AllDigits(m) && AllDigits(sec) && AllDigits(f)
    requires 1 <= |h| <= 2 && 1 <= |m| <= 2 && 1 <= |sec| <= 2 && 1 <= |f| <= 6
    ensures ParseTime(h + ":" + m + ":" + sec + "." + f) ==
      if DigitsValue(h) <= 23 && DigitsValue(m) <= 59 && DigitsValue(sec) <= 59
      then Some(ClockMicros(DigitsValue(h), DigitsValue(m), DigitsValue(sec), FractionMicros(f)))
      else None
  {
    var s3 := sec + ("." + f);
    var s2 := m + (":" + s3);
    TextAssoc(h, m, sec, f);
    FieldOf(h, ':', s2, 2);
    FieldOf(m, ':', s3, 2);
    FieldOf(sec, '.', f, 2);
  }

  /** A field that reads is its run of digits, the separator, and the text after it. */
  lemma FieldShape(s: string, width: nat, sep: char)
    requires Field(s, width, sep).Some?
    ensures var n := DigitRun(s);
      && 1 <= n <= width && AllDigits(s[..n])
      && Field(s, width, sep).value == (DigitsValue(s[..n]), s[n + 1..])
      && s == s[..n] + ([sep] + s[n + 1..])
  {
    var n := DigitRun(s);
    assert s == s[..n] + ([s[n]] + s[n + 1..]);
  }

  /**
   * Only text of the form H:M:S.F parses: one or two digits for H, M and S,
   * one to six for F, and nothing before or after.
   */
  lemma ParseTimeShape(s: string)
    requires ParseTime(s).Some?
    ensures exists h, m, sec, f ::
      && AllDigits(h) && AllDigits(m) && AllDigits(sec) && AllDigits(f)
      && 1 <= |h| <= 2 && 1 <= |m| <= 2 && 1 <= |sec| <= 2 && 1 <= |f| <= 6
      && s == h + ":" + m + ":" + sec + "." + f
  {
    FieldShape(s, 2, ':');
    var afterHours := Field(s, 2, ':').value.1;
    var h := s[..DigitRun(s)];
    FieldShape(afterHours, 2, ':');
    var afterMinutes := Field(afterHours, 2, ':').value.1;
    var m := afterHours[..DigitRun(afterHours)];
    FieldShape(afterMinutes, 2, '.');
    var f := Field(afterMinutes, 2, '.').value.1;
    var sec := afterMinutes[..DigitRun(afterMinutes)];
    TextAssoc(h, m, sec, f);
  }

  /** A time of day splits into hours 0 to 23, minutes, seconds and microseconds that add up to it. */
  lemma ClockSplit(us: nat)
    requires us < 86_400_000_000
    ensures us / 1_000_000 / 60 / 60 <= 23
    ensures ClockMicros(us / 1_000_000 / 60 / 60, us / 1_000_000 / 60 % 60, us / 1_000_000 % 60, us % 1_000_000) == us
  {
    var secs := us / 1_000_000;
    var mins := secs / 60;
    var h := mins / 60;
    assert us == secs * 1_000_000 + us % 1_000_000;
    assert secs == mins * 60 + secs % 60;
    assert mins == h * 60 + mins % 60;
    assert secs < 86_400 && mins < 1_440;
  }

  lemma FractionOfPad(x: nat)
    requires x < 1_000_000
    ensures FractionMicros(Pad(x, 6)) == x
  {
    assert Pow10(6) == 1_000_000 && Pow10(0) == 1;
    PadValue(x, 6);
  }

  /** Rendering a time of day and parsing the text back gives the same time. */
  lemma ParseRender(us: nat)
    requires us < 86_400_000_000
    ensures ParseTime(Render(us)) == Some(us)
  {
    var secs := us / 1_000_000;
    var mins := secs / 60;
    var h, m, sec, f := Pad(mins / 60, 2), Pad(mins % 60, 2), Pad(secs % 60, 2), Pad(us % 1_000_000, 6);
    ClockSplit(us);
    assert Pow10(2) == 100;
    PadValue(mins / 60, 2);
    PadValue(mins % 60, 2);
    PadValue(secs % 60, 2);
    FractionOfPad(us % 1_000_000);
    ParseTimeFields(h, m, sec, f);
  }
}
