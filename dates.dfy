/**
 * Python's `datetime.date` and the `strftime` directives the crawler uses (`%Y`, `%m`, `%d`),
 * together with `int()` on a string of ASCII digits.
 */
module Dates {
  import opened Wrappers
  import opened Strings

  /** A proleptic Gregorian calendar date; `Valid` is what `datetime.date(...)` accepts. */
  datatype Date = Date(year: int, month: int, day: int) {
    predicate Valid() {
      1 <= year <= 9999 && 1 <= month <= 12 && 1 <= day <= DaysInMonth(year, month)
    }
  }

  predicate IsLeapYear(year: int) {
    year % 4 == 0 && (year % 100 != 0 || year % 400 == 0)
  }

  function DaysInMonth(year: int, month: int): (n: int)
    requires 1 <= month <= 12
    ensures 28 <= n <= 31
    ensures month == 2 ==> (n == 29 <==> IsLeapYear(year))
  {
    if month == 2 then (if IsLeapYear(year) then 29 else 28)
    else if month in {4, 6, 9, 11} then 30
    else 31
  }

  function Pow10(n: nat): (p: nat)
    ensures p >= 1
  {
    if n == 0 then 1 else 10 * Pow10(n - 1)
  }

  /** The value of a string of ASCII digits, most significant first (Python's `int(s)`). */
  function DigitsValue(s: string): (v: nat)
    requires AllDigits(s)
    ensures v < Pow10(|s|)
  {
    if s == [] then 0
    else DigitsValue(s[..|s| - 1]) * 10 + (s[|s| - 1] as int - '0' as int)
  }

  /** Python's `int(s)`, for strings made of ASCII digits only; None where `int` raises. */
  function ParseInt(s: string): (r: Option<nat>)
    ensures r.Some? <==> s != [] && AllDigits(s)
    ensures r.Some? ==> r.value == DigitsValue(s)
  {
    if s != [] && AllDigits(s) then Some(DigitsValue(s)) else None
  }

  /** `n` written in decimal with exactly `width` digits, zero-padded on the left. */
  function Pad(n: nat, width: nat): (s: string)
    requires n < Pow10(width)
    ensures |s| == width && AllDigits(s)
  {
    if width == 0 then ""
    else Pad(n / 10, width - 1) + [('0' as int + n % 10) as char]
  }

  /** Reading back a zero-padded number gives the number. */
  lemma {:induction false} PadValue(n: nat, width: nat)
    requires n < Pow10(width)
    ensures DigitsValue(Pad(n, width)) == n
  {
    if width > 0 {
      PadValue(n / 10, width - 1);
      var s := Pad(n, width);
      assert s[..|s| - 1] == Pad(n / 10, width - 1);
    }
  }

  lemma DivMod10(high: nat, low: int)
    requires 0 <= low < 10
    ensures (high * 10 + low) / 10 == high && (high * 10 + low) % 10 == low
  {
  }

  /** Zero-padding the value of a digit string to its own length gives the string back. */
  lemma {:induction false} ValuePad(s: string)
    requires AllDigits(s)
    ensures Pad(DigitsValue(s), |s|) == s
  {
    if s != [] {
      var init := s[..|s| - 1];
      ValuePad(init);
      var low := s[|s| - 1] as int - '0' as int;
      DivMod10(DigitsValue(init), low);
      assert ('0' as int + low) as char == s[|s| - 1];
      assert s == init + [s[|s| - 1]];
    }
  }

  lemma Fields(a: string, b: string, c: string, sep: char)
    requires |a| == 4 && |b| == 2 && |c| == 2
    ensures var s := a + [sep] + b + [sep] + c;
      |s| == 10 && s[4] == sep && s[7] == sep && s[..4] == a && s[5..7] == b && s[8..] == c
  {
  }

  /**
   * `d.strftime("%Y<sep>%m<sep>%d")`: the year in four digits, month and day in two, all
   * zero-padded. With sep == '-' it is the ISO 8601 date, with '/' the path of the daily index.
   */
  function FormatDate(d: Date, sep: char): (s: string)
    requires d.Valid()
    ensures |s| == 10 && s[4] == sep && s[7] == sep
    ensures AllDigits(s[..4]) && DigitsValue(s[..4]) == d.year
    ensures AllDigits(s[5..7]) && DigitsValue(s[5..7]) == d.month
    ensures AllDigits(s[8..]) && DigitsValue(s[8..]) == d.day
  {
    PadValue(d.year, 4);
    PadValue(d.month, 2);
    PadValue(d.day, 2);
    Fields(Pad(d.year, 4), Pad(d.month, 2), Pad(d.day, 2), sep);
    Pad(d.year, 4) + [sep] + Pad(d.month, 2) + [sep] + Pad(d.day, 2)
  }

  /** Different dates are written differently. */
  lemma FormatDateInjective(d1: Date, d2: Date, sep: char)
    requires d1.Valid() && d2.Valid()
    requires FormatDate(d1, sep) == FormatDate(d2, sep)
    ensures d1 == d2
  {
  }

  /** `d.strftime("%Y%m%d")`: the eight-digit form the command line accepts. */
  function CompactDate(d: Date): (s: string)
    requires d.Valid()
    ensures |s| == 8 && AllDigits(s)
  {
    Pad(d.year, 4) + Pad(d.month, 2) + Pad(d.day, 2)
  }
}
