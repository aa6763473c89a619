/**
 * Calendar dates as they appear in a note's frontmatter: the text `YYYY-MM-DD`.
 *
 * The site derives a note's year from this text (gatsby-node.ts) and orders notes
 * by it (the `NotesIndex` query). Dates are required to be real calendar dates;
 * what JavaScript does with a missing or malformed date is not modelled.
 */
module Dates {

  predicate IsDigit(c: char) {
    '0' <= c <= '9'
  }

  function Digit(c: char): (d: nat)
    requires IsDigit(c)
    ensures d < 10
  {
    c as int - '0' as int
  }

  function DigitChar(d: nat): (c: char)
    requires d < 10
    ensures IsDigit(c) && Digit(c) == d
  {
    ('0' as int + d) as char
  }

  /** The text has the shape `DDDD-DD-DD` (D a decimal digit). */
  predicate Shaped(s: string) {
    && |s| == 10
    && s[4] == '-' && s[7] == '-'
    && IsDigit(s[0]) && IsDigit(s[1]) && IsDigit(s[2]) && IsDigit(s[3])
    && IsDigit(s[5]) && IsDigit(s[6])
    && IsDigit(s[8]) && IsDigit(s[9])
  }

  /** The calendar year written in the first four characters. */
  function YearOf(s: string): (y: nat)
    requires Shaped(s)
    ensures y < 10000
  {
    1000 * Digit(s[0]) + 100 * Digit(s[1]) + 10 * Digit(s[2]) + Digit(s[3])
  }

  function MonthOf(s: string): (m: nat)
    requires Shaped(s)
    ensures m < 100
  {
    10 * Digit(s[5]) + Digit(s[6])
  }

  function DayOf(s: string): (d: nat)
    requires Shaped(s)
    ensures d < 100
  {
    10 * Digit(s[8]) + Digit(s[9])
  }

  /** Gregorian leap years. */
  predicate IsLeapYear(y: int) {
    (y % 4 == 0 && y % 100 != 0) || y % 400 == 0
  }

  function DaysInMonth(y: int, m: int): (n: int)
    requires 1 <= m <= 12
    ensures 28 <= n <= 31
    ensures n == 29 <==> m == 2 && IsLeapYear(y)
    ensures n == 31 <==> m in {1, 3, 5, 7, 8, 10, 12}
    ensures n == 30 <==> m in {4, 6, 9, 11}
  {
    if m == 2 then (if IsLeapYear(y) then 29 else 28)
    else if m in {4, 6, 9, 11} then 30
    else 31
  }

  /** `YYYY-MM-DD` naming a day that exists in the Gregorian calendar. */
  predicate WellFormedDate(s: string) {
    && Shaped(s)
    && 1 <= MonthOf(s) <= 12
    && 1 <= DayOf(s) <= DaysInMonth(YearOf(s), MonthOf(s))
  }

  /** The date read as the number YYYYMMDD: a larger key is a later day. */
  function DateKey(s: string): (k: nat)
    requires WellFormedDate(s)
  {
    YearOf(s) * 10000 + MonthOf(s) * 100 + DayOf(s)
  }

  /** Four-digit, zero-padded decimal text of a year. */
  function YearText(y: nat): (t: string)
    requires y < 10000
    ensures |t| == 4
  {
    [DigitChar(y / 1000), DigitChar(y / 100 % 10), DigitChar(y / 10 % 10), DigitChar(y % 10)]
  }

  /** Quotient and remainder are determined by `n == q * k + r` with `0 <= r < k`. */
  lemma DivModUnique(n: int, k: int, q: int, r: int)
    requires k > 0 && 0 <= r < k && n == q * k + r
    ensures n / k == q && n % k == r
  {
    var q', r' := n / k, n % k;
    assert n == q' * k + r' && 0 <= r' < k;
    if q > q' {
      MulAtLeast(q - q', k);
    } else if q < q' {
      MulAtLeast(q' - q, k);
    }
  }

  lemma MulAtLeast(a: int, k: int)
    requires a >= 1 && k > 0
    ensures a * k >= k
  {
  }

  /** Reading the year and writing it back yields the date's first four characters. */
  lemma YearTextOfYearOf(s: string)
    requires Shaped(s)
    ensures YearText(YearOf(s)) == s[..4]
  {
    var a, b, c, d := Digit(s[0]), Digit(s[1]), Digit(s[2]), Digit(s[3]);
    var y := YearOf(s);
    DivModUnique(y, 1000, a, 100 * b + 10 * c + d);
    DivModUnique(y, 100, 10 * a + b, 10 * c + d);
    DivModUnique(10 * a + b, 10, a, b);
    DivModUnique(y, 10, 100 * a + 10 * b + c, d);
    DivModUnique(100 * a + 10 * b + c, 10, 10 * a + b, c);
    assert DigitChar(a) == s[0] && DigitChar(b) == s[1] && DigitChar(c) == s[2] && DigitChar(d) == s[3];
  }

  /** Writing a year and reading it back yields the same year. */
  lemma YearOfYearText(y: nat, rest: string)
    requires y < 10000
    requires |rest| == 6 && rest[0] == '-' && rest[3] == '-'
    requires IsDigit(rest[1]) && IsDigit(rest[2]) && IsDigit(rest[4]) && IsDigit(rest[5])
    ensures Shaped(YearText(y) + rest) && YearOf(YearText(y) + rest) == y
  {
    var s := YearText(y) + rest;
    assert s[0] == DigitChar(y / 1000) && s[1] == DigitChar(y / 100 % 10);
    assert s[2] == DigitChar(y / 10 % 10) && s[3] == DigitChar(y % 10);
    DecimalDigits(y);
  }

  /** A year below 10000 is the sum of its four decimal digits' place values. */
  lemma DecimalDigits(y: nat)
    requires y < 10000
    ensures 1000 * (y / 1000) + 100 * (y / 100 % 10) + 10 * (y / 10 % 10) + y % 10 == y
  {
    assert y / 100 / 10 == y / 1000;
    assert y / 10 / 10 == y / 100;
  }

  /** Later days never have earlier years: ordering by date orders by year. */
  lemma YearOfMonotone(a: string, b: string)
    requires WellFormedDate(a) && WellFormedDate(b)
    requires DateKey(a) <= DateKey(b)
    ensures YearOf(a) <= YearOf(b)
  {
  }

  /** Two dates with the same key are the same text. */
  lemma DateKeyInjective(a: string, b: string)
    requires WellFormedDate(a) && WellFormedDate(b)
    requires DateKey(a) == DateKey(b)
    ensures a == b
  {
    DateKeyParts(a, b);
    YearTextOfYearOf(a);
    YearTextOfYearOf(b);
    TwoDigits(a[5], a[6], b[5], b[6]);
    TwoDigits(a[8], a[9], b[8], b[9]);
    forall i | 0 <= i < 10
      ensures a[i] == b[i]
    {
      if i < 4 {
        assert a[i] == a[..4][i] && b[i] == b[..4][i];
      }
    }
  }

  /** The key of a date determines its year, month and day. */
  lemma DateKeyParts(a: string, b: string)
    requires WellFormedDate(a) && WellFormedDate(b)
    requires DateKey(a) == DateKey(b)
    ensures YearOf(a) == YearOf(b) && MonthOf(a) == MonthOf(b) && DayOf(a) == DayOf(b)
  {
  }

  /** Two-digit decimal text is determined by its value. */
  lemma TwoDigits(c1: char, c2: char, d1: char, d2: char)
    requires IsDigit(c1) && IsDigit(c2) && IsDigit(d1) && IsDigit(d2)
    requires 10 * Digit(c1) + Digit(c2) == 10 * Digit(d1) + Digit(d2)
    ensures c1 == d1 && c2 == d2
  {
  }

  // ---------------------------------------------------------------------------
  // How JavaScript actually derives the year (gatsby-node.ts:12-13).
  //
  // `new Date("YYYY-MM-DD")` reads a date-only text as midnight UTC, while
  // `getFullYear()` answers in the build machine's local time zone. In a zone
  // west of UTC that instant falls on the previous local day.
  // ---------------------------------------------------------------------------

  datatype CalendarDay = CalendarDay(year: int, month: int, day: int)

  predicate ValidDay(c: CalendarDay) {
    1 <= c.month <= 12 && 1 <= c.day <= DaysInMonth(c.year, c.month)
  }

  function DayOfDate(s: string): (c: CalendarDay)
    requires WellFormedDate(s)
    ensures ValidDay(c)
  {
    CalendarDay(YearOf(s), MonthOf(s), DayOf(s))
  }

  /** The calendar day after `c`: the next day of the month, else the first of the next month or year. */
  function NextDay(c: CalendarDay): (n: CalendarDay)
    requires ValidDay(c)
    ensures ValidDay(n)
    ensures n.year == c.year || (n.year == c.year + 1 && c.month == 12 && c.day == 31)
  {
    if c.day < DaysInMonth(c.year, c.month) then CalendarDay(c.year, c.month, c.day + 1)
    else if c.month < 12 then CalendarDay(c.year, c.month + 1, 1)
    else CalendarDay(c.year + 1, 1, 1)
  }

  /** The calendar day before `c`: the day that `NextDay` turns into `c`. */
  function PreviousDay(c: CalendarDay): (p: CalendarDay)
    requires ValidDay(c)
    ensures ValidDay(p)
    ensures NextDay(p) == c
    ensures p.year == c.year || (p.year == c.year - 1 && c.month == 1 && c.day == 1)
  {
    if c.day > 1 then CalendarDay(c.year, c.month, c.day - 1)
    else if c.month > 1 then CalendarDay(c.year, c.month - 1, DaysInMonth(c.year, c.month - 1))
    else CalendarDay(c.year - 1, 12, 31)
  }

  /** Stepping a day forward and then a day back returns to the same day. */
  lemma PreviousOfNext(c: CalendarDay)
    requires ValidDay(c)
    ensures PreviousDay(NextDay(c)) == c
  {
  }

  /**
   * The local calendar day of midnight UTC on date `s`, seen from a zone
   * `offsetMinutes` east of UTC (negative: west). Offsets stay within a day.
   */
  function LocalDayOfUtcMidnight(s: string, offsetMinutes: int): (c: CalendarDay)
    requires WellFormedDate(s)
    requires -24 * 60 < offsetMinutes < 24 * 60
    ensures ValidDay(c)
  {
    if offsetMinutes < 0 then PreviousDay(DayOfDate(s)) else DayOfDate(s)
  }

  /** `new Date(s).getFullYear()`, as written. */
  function LocalYearOfUtcMidnight(s: string, offsetMinutes: int): (y: int)
    requires WellFormedDate(s)
    requires -24 * 60 < offsetMinutes < 24 * 60
  {
    LocalDayOfUtcMidnight(s, offsetMinutes).year
  }

  /** As written, the year differs from the written year exactly for 1 January west of UTC. */
  lemma LocalYearDiffers(s: string, offsetMinutes: int)
    requires WellFormedDate(s)
    requires -24 * 60 < offsetMinutes < 24 * 60
    ensures LocalYearOfUtcMidnight(s, offsetMinutes) != YearOf(s)
        <==> offsetMinutes < 0 && MonthOf(s) == 1 && DayOf(s) == 1
    ensures LocalYearOfUtcMidnight(s, offsetMinutes) != YearOf(s)
        ==> LocalYearOfUtcMidnight(s, offsetMinutes) == YearOf(s) - 1
  {
  }

  /** A note dated 2024-01-01, built at UTC-5, is filed under 2023. */
  lemma NewYearWestOfUtc()
    ensures WellFormedDate("2024-01-01")
    ensures YearOf("2024-01-01") == 2024
    ensures LocalYearOfUtcMidnight("2024-01-01", -5 * 60) == 2023
  {
  }
}
