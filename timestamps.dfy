/**
 * Timestamps and a strict recognizer for the fixed pattern
 * "%Y-%m-%d %H:%M:%S" (for example "2023-01-15 08:30:00") that the loader
 * tries on every value. The recognizer accepts exactly the 19-character,
 * zero-padded form of a valid calendar date and time of day; Python's
 * datetime.strptime is more lenient about widths and white space.
 */
module Timestamps {
  import opened Wrappers

  datatype Timestamp = Timestamp(year: nat, month: nat, day: nat, hour: nat, minute: nat, second: nat)

  /** Gregorian leap years. */
  predicate IsLeapYear(y: nat) {
    y % 4 == 0 && (y % 100 != 0 || y % 400 == 0)
  }

  function DaysInMonth(y: nat, m: nat): (n: nat)
    requires 1 <= m <= 12
    ensures 28 <= n <= 31
    ensures n == 29 <==> m == 2 && IsLeapYear(y)
  {
    if m == 2 then (if IsLeapYear(y) then 29 else 28)
    else if m == 4 || m == 6 || m == 9 || m == 11 then 30
    else 31
  }

  /** A point in time the calendar accepts: years 1 to 9999, real days, no leap second. */
  predicate Valid(t: Timestamp) {
    1 <= t.year <= 9999 &&
    1 <= t.month <= 12 &&
    1 <= t.day <= DaysInMonth(t.year, t.month) &&
    t.hour < 24 && t.minute < 60 && t.second < 60
  }

  predicate IsDigit(c: char) {
    '0' <= c <= '9'
  }

  function DigitValue(c: char): (d: nat)
    requires IsDigit(c)
    ensures d < 10
  {
    c as int - '0' as int
  }

  function DigitChar(d: nat): (c: char)
    requires d < 10
    ensures IsDigit(c) && DigitValue(c) == d
  {
    ('0' as int + d) as char
  }

  /** The two-digit decimal number written at s[i], s[i + 1]. */
  function TwoDigits(s: string, i: nat): (n: nat)
    requires i + 2 <= |s| && IsDigit(s[i]) && IsDigit(s[i + 1])
    ensures n < 100
  {
    10 * DigitValue(s[i]) + DigitValue(s[i + 1])
  }

  /** The positions that must hold a digit in "YYYY-MM-DD HH:MM:SS". */
  predicate IsDigitPosition(i: nat) {
    i < 19 && i != 4 && i != 7 && i != 10 && i != 13 && i != 16
  }

  /** s has the shape of the pattern: 19 characters, digits and separators at their places. */
  predicate HasPatternShape(s: string) {
    |s| == 19 &&
    (forall i | 0 <= i < 19 && IsDigitPosition(i) :: IsDigit(s[i])) &&
    s[4] == '-' && s[7] == '-' && s[10] == ' ' && s[13] == ':' && s[16] == ':'
  }

  /** The fields read from a string of the pattern's shape, not yet validated. */
  function Fields(s: string): Timestamp
    requires HasPatternShape(s)
  {
    Timestamp(
      100 * TwoDigits(s, 0) + TwoDigits(s, 2),
      TwoDigits(s, 5), TwoDigits(s, 8),
      TwoDigits(s, 11), TwoDigits(s, 14), TwoDigits(s, 17))
  }

  /** The strict recognizer: Some timestamp when s spells a valid one, None otherwise. */
  function Parse(s: string): Option<Timestamp> {
    if HasPatternShape(s) && Valid(Fields(s)) then Some(Fields(s)) else None
  }

  /** The zero-padded spelling of a valid timestamp. */
  function Format(t: Timestamp): (s: string)
    requires Valid(t)
    ensures |s| == 19
  {
    var hi, lo := t.year / 100, t.year % 100;
    [DigitChar(hi / 10), DigitChar(hi % 10), DigitChar(lo / 10), DigitChar(lo % 10), '-',
     DigitChar(t.month / 10), DigitChar(t.month % 10), '-',
     DigitChar(t.day / 10), DigitChar(t.day % 10), ' ',
     DigitChar(t.hour / 10), DigitChar(t.hour % 10), ':',
     DigitChar(t.minute / 10), DigitChar(t.minute % 10), ':',
     DigitChar(t.second / 10), DigitChar(t.second % 10)]
  }

  /** Reading back two digits written for n gives n. */
  lemma TwoDigitsOfWritten(s: string, i: nat, n: nat)
    requires n < 100 && i + 2 <= |s|
    requires s[i] == DigitChar(n / 10) && s[i + 1] == DigitChar(n % 10)
    ensures TwoDigits(s, i) == n
  {
  }

  /** Writing back two digits read from s gives the same two characters. */
  lemma WrittenOfTwoDigits(s: string, i: nat)
    requires i + 2 <= |s| && IsDigit(s[i]) && IsDigit(s[i + 1])
    ensures DigitChar(TwoDigits(s, i) / 10) == s[i]
    ensures DigitChar(TwoDigits(s, i) % 10) == s[i + 1]
  {
    var a, b := DigitValue(s[i]), DigitValue(s[i + 1]);
    assert TwoDigits(s, i) == 10 * a + b;
    assert (10 * a + b) / 10 == a && (10 * a + b) % 10 == b;
  }

  /** Every valid timestamp is recognized from its own spelling. */
  lemma ParseFormat(t: Timestamp)
    requires Valid(t)
    ensures Parse(Format(t)) == Some(t)
  {
    var s := Format(t);
    var hi, lo := t.year / 100, t.year % 100;
    assert HasPatternShape(s);
    TwoDigitsOfWritten(s, 0, hi);
    TwoDigitsOfWritten(s, 2, lo);
    TwoDigitsOfWritten(s, 5, t.month);
    TwoDigitsOfWritten(s, 8, t.day);
    TwoDigitsOfWritten(s, 11, t.hour);
    TwoDigitsOfWritten(s, 14, t.minute);
    TwoDigitsOfWritten(s, 17, t.second);
    assert Fields(s) == t;
  }

  /** Whatever is recognized is valid and is exactly the spelling of the result. */
  lemma FormatParse(s: string, t: Timestamp)
    requires Parse(s) == Some(t)
    ensures Valid(t) && Format(t) == s
  {
    assert HasPatternShape(s) && t == Fields(s);
    var hi, lo := TwoDigits(s, 0), TwoDigits(s, 2);
    assert t.year / 100 == hi && t.year % 100 == lo;
    WrittenOfTwoDigits(s, 0);
    WrittenOfTwoDigits(s, 2);
    WrittenOfTwoDigits(s, 5);
    WrittenOfTwoDigits(s, 8);
    WrittenOfTwoDigits(s, 11);
    WrittenOfTwoDigits(s, 14);
    WrittenOfTwoDigits(s, 17);
    var f := Format(t);
    forall i | 0 <= i < 19 ensures f[i] == s[i] {
    }
  }

  /** The recognizer accepts a string exactly when it spells a valid timestamp. */
  lemma ParseCharacterized(s: string, t: Timestamp)
    ensures Parse(s) == Some(t) <==> Valid(t) && Format(t) == s
  {
    if Parse(s) == Some(t) {
      FormatParse(s, t);
    }
    if Valid(t) && Format(t) == s {
      ParseFormat(t);
    }
  }

  /** "2023-01-15 08:30:00" is 15 January 2023, 08:30:00; "N/A" is no timestamp. */
  lemma ParseExamples()
    ensures Parse("2023-01-15 08:30:00") == Some(Timestamp(2023, 1, 15, 8, 30, 0))
    ensures Parse("N/A") == None
  {
    var t := Timestamp(2023, 1, 15, 8, 30, 0);
    assert Valid(t);
    assert Format(t) == "2023-01-15 08:30:00";
    ParseFormat(t);
  }

  /** 29 February is recognized in a leap year. */
  lemma ParseLeapDay()
    ensures Parse("2024-02-29 00:00:00") == Some(Timestamp(2024, 2, 29, 0, 0, 0))
  {
    var t := Timestamp(2024, 2, 29, 0, 0, 0);
    assert Format(t) == "2024-02-29 00:00:00";
    ParseFormat(t);
  }

  /** A string of the right shape whose fields name no real moment is rejected. */
  lemma ParseRejectsImpossibleFields(s: string)
    requires s in {"2023-02-29 00:00:00", "2023-04-31 12:00:00", "2023-01-15 24:00:00"}
    ensures Parse(s) == None
  {
    assert HasPatternShape(s);
    assert !Valid(Fields(s));
  }
}
