/**
 * Calendar dates and their `yyyy-MM-dd` text form, as the loan ledger
 * writes them (custom format, zero padded) and reads them back (exact
 * parse with the invariant culture: exactly four, two and two ASCII
 * digits, literal hyphens, no surrounding white space, and a date that
 * exists in the proleptic Gregorian calendar between years 1 and 9999).
 */
module Dates {
  import opened Wrappers

  /** A date with no time component. */
  datatype Date = Date(year: int, month: int, day: int)

  predicate IsLeapYear(y: int) {
    (y % 4 == 0 && y % 100 != 0) || y % 400 == 0
  }

  function DaysInMonth(y: int, m: int): int
    requires 1 <= m <= 12
  {
    if m == 2 then (if IsLeapYear(y) then 29 else 28)
    else if m == 4 || m == 6 || m == 9 || m == 11 then 30
    else 31
  }

  /** The dates a calendar date value can hold. */
  predicate ValidDate(d: Date) {
    1 <= d.year <= 9999 && 1 <= d.month <= 12 && 1 <= d.day <= DaysInMonth(d.year, d.month)
  }

  predicate IsDigit(c: char) {
    '0' <= c <= '9'
  }

  predicate AllDigits(s: string) {
    forall i :: 0 <= i < |s| ==> IsDigit(s[i])
  }

  function DigitChar(n: int): char
    requires 0 <= n < 10
  {
    ('0' as int + n) as char
  }

  function DigitValue(c: char): int
    requires IsDigit(c)
  {
    c as int - '0' as int
  }

  function Pow10(w: nat): nat {
    if w == 0 then 1 else 10 * Pow10(w - 1)
  }

  /** The last `w` decimal digits of `n`, zero padded on the left. */
  function Pad(n: nat, w: nat): (s: string)
    ensures |s| == w && AllDigits(s)
  {
    if w == 0 then [] else Pad(n / 10, w - 1) + [DigitChar(n % 10)]
  }

  /** The number a string of decimal digits denotes. */
  function DigitsValue(s: string): nat
    requires AllDigits(s)
  {
    if |s| == 0 then 0 else 10 * DigitsValue(s[..|s| - 1]) + DigitValue(s[|s| - 1])
  }

  /** Reading back a padded number gives the number, when it fits the width. */
  lemma {:induction false} DigitsValueOfPad(n: nat, w: nat)
    requires n < Pow10(w)
    ensures DigitsValue(Pad(n, w)) == n
  {
    if w > 0 {
      var s := Pad(n, w);
      assert s[..|s| - 1] == Pad(n / 10, w - 1);
      DigitsValueOfPad(n / 10, w - 1);
    }
  }

  /** Padding the value of a digit string to its own width gives the string back. */
  lemma {:induction false} PadOfDigitsValue(s: string)
    requires AllDigits(s)
    ensures Pad(DigitsValue(s), |s|) == s
  {
    if |s| > 0 {
      var p := s[..|s| - 1];
      var n := DigitsValue(s);
      assert n / 10 == DigitsValue(p) && n % 10 == DigitValue(s[|s| - 1]);
      PadOfDigitsValue(p);
      assert s == p + [s[|s| - 1]];
    }
  }

  /** `d.ToString("yyyy-MM-dd")`. */
  function FormatDate(d: Date): string
    requires ValidDate(d)
  {
    Pad(d.year, 4) + "-" + Pad(d.month, 2) + "-" + Pad(d.day, 2)
  }

  /** `DateTime.ParseExact(s, "yyyy-MM-dd", InvariantCulture)`; `None` where that throws. */
  function ParseDate(s: string): (r: Option<Date>)
    ensures r.Some? ==> ValidDate(r.value) && |s| == 10
  {
    if |s| == 10 && s[4] == '-' && s[7] == '-'
       && AllDigits(s[..4]) && AllDigits(s[5..7]) && AllDigits(s[8..])
    then
      var d := Date(DigitsValue(s[..4]), DigitsValue(s[5..7]), DigitsValue(s[8..]));
      if ValidDate(d) then Some(d) else None
    else None
  }

  /** Where each field sits in the formatted text. */
  lemma FormatDateLayout(d: Date)
    requires ValidDate(d)
    ensures var s := FormatDate(d);
      |s| == 10 && s[4] == '-' && s[7] == '-'
      && s[..4] == Pad(d.year, 4) && s[5..7] == Pad(d.month, 2) && s[8..] == Pad(d.day, 2)
  {
  }

  /** Formatting a date and parsing the text back yields the same date. */
  lemma DateRoundTrip(d: Date)
    requires ValidDate(d)
    ensures ParseDate(FormatDate(d)) == Some(d)
  {
    FormatDateLayout(d);
    assert Pow10(2) == 100 && Pow10(4) == 10000;
    DigitsValueOfPad(d.year, 4);
    DigitsValueOfPad(d.month, 2);
    DigitsValueOfPad(d.day, 2);
  }

  /** The parser accepts only the canonical text of the date it returns. */
  lemma ParseDateCanonical(s: string)
    requires ParseDate(s).Some?
    ensures FormatDate(ParseDate(s).value) == s
  {
    PadOfDigitsValue(s[..4]);
    PadOfDigitsValue(s[5..7]);
    PadOfDigitsValue(s[8..]);
    assert s == s[..4] + "-" + s[5..7] + "-" + s[8..];
  }

  lemma DigitsValueOfFour(s: string)
    requires |s| == 4 && AllDigits(s)
    ensures DigitsValue(s) == 1000 * DigitValue(s[0]) + 100 * DigitValue(s[1]) + 10 * DigitValue(s[2]) + DigitValue(s[3])
  {
    var a, b, c := s[..1], s[..2], s[..3];
    assert b[..1] == a && c[..2] == b && s[..3] == c;
    assert DigitsValue(a) == DigitValue(s[0]);
    assert DigitsValue(b) == 10 * DigitValue(s[0]) + DigitValue(s[1]);
    assert DigitsValue(c) == 100 * DigitValue(s[0]) + 10 * DigitValue(s[1]) + DigitValue(s[2]);
  }

  /** 29 February exists in a leap year only. */
  lemma ParseDateLeapDay()
    ensures ParseDate("2024-02-29") == Some(Date(2024, 2, 29))
    ensures ParseDate("2023-02-29") == None
  {
    var s := "2024-02-29";
    assert s[..4] == "2024" && s[5..7] == "02" && s[8..] == "29";
    DigitsValueOfFour("2024");
    assert DigitsValue("02") == 2 && DigitsValue("29") == 29;
    assert ValidDate(Date(2024, 2, 29));
    var t := "2023-02-29";
    assert t[..4] == "2023" && t[5..7] == "02" && t[8..] == "29";
    DigitsValueOfFour("2023");
  }

  /** An unpadded month and the year 0000 are rejected. */
  lemma ParseDateRejectsLayout()
    ensures ParseDate("2024-1-01") == None
    ensures ParseDate("0000-01-01") == None
  {
    var u := "0000-01-01";
    assert u[..4] == "0000";
    DigitsValueOfFour("0000");
  }
}
