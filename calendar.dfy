/** Civil dates and times as .NET's `DateTime` holds them (proleptic Gregorian,
    years 1 to 9999), with the two fixed-width renderings the core uses:
    `yyyy-MM-dd` for path segments (the `full-date` of section 5.6 of RFC 3339)
    and `yy-MM-dd` for blob names. */
module Calendar {
  import opened Common

  datatype Date = Date(year: int, month: int, day: int)

  predicate IsLeapYear(year: int)
  {
    year % 4 == 0 && (year % 100 != 0 || year % 400 == 0)
  }

  /** Day-of-month limits of section 5.7 of RFC 3339. */
  function DaysInMonth(year: int, month: int): (n: int)
    requires 1 <= month <= 12
    ensures 28 <= n <= 31
    ensures month == 2 ==> (n == 29 <==> IsLeapYear(year))
  {
    if month == 2 then (if IsLeapYear(year) then 29 else 28)
    else if month == 4 || month == 6 || month == 9 || month == 11 then 30
    else 31
  }

  predicate ValidDate(d: Date)
  {
    1 <= d.year <= 9999 && 1 <= d.month <= 12 && 1 <= d.day <= DaysInMonth(d.year, d.month)
  }

  /** A date a `DateTime` can hold. */
  type CivilDate = d: Date | ValidDate(d) witness Date(1, 1, 1)

  type Hour = h: int | 0 <= h < 24
  type Minute = m: int | 0 <= m < 60

  /** A `DateTime` value (ticks below a second are not modelled). */
  datatype DateTime = DateTime(date: CivilDate, hour: Hour, minute: Minute, second: Minute)

  /** What `DateTime.Parse` yields for a bare date: midnight of that day. */
  function AtMidnight(d: CivilDate): (t: DateTime)
    ensures t.date == d && t.hour == 0 && t.minute == 0 && t.second == 0
  {
    DateTime(d, 0, 0, 0)
  }

  predicate IsDigit(c: char)
  {
    '0' <= c <= '9'
  }

  function DigitValue(c: char): (n: int)
    requires IsDigit(c)
    ensures 0 <= n < 10
  {
    c as int - '0' as int
  }

  function DigitChar(n: int): (c: char)
    requires 0 <= n < 10
    ensures IsDigit(c) && DigitValue(c) == n
  {
    ('0' as int + n) as char
  }

  /** The number two decimal digits spell. */
  function TwoDigits(hi: char, lo: char): (n: int)
    requires IsDigit(hi) && IsDigit(lo)
    ensures 0 <= n < 100
  {
    10 * DigitValue(hi) + DigitValue(lo)
  }

  /** Two decimal digits with a leading zero, as the `MM`, `dd` and `yy` specifiers print. */
  function Pad2(n: int): (s: string)
    requires 0 <= n < 100
    ensures |s| == 2 && IsDigit(s[0]) && IsDigit(s[1]) && TwoDigits(s[0], s[1]) == n
  {
    [DigitChar(n / 10), DigitChar(n % 10)]
  }

  /** Four decimal digits with leading zeros, as the `yyyy` specifier prints. */
  function Pad4(n: int): (s: string)
    requires 0 <= n < 10000
    ensures |s| == 4 && IsDigit(s[0]) && IsDigit(s[1]) && IsDigit(s[2]) && IsDigit(s[3])
    ensures 100 * TwoDigits(s[0], s[1]) + TwoDigits(s[2], s[3]) == n
  {
    Pad2(n / 100) + Pad2(n % 100)
  }

  /** `d.ToString("yyyy-MM-dd")`. */
  function FormatFullDate(d: CivilDate): (s: string)
    ensures |s| == 10
  {
    Pad4(d.year) + "-" + Pad2(d.month) + "-" + Pad2(d.day)
  }

  /** `d.ToString("yy-MM-dd")`: the century is dropped. */
  function FormatShortDate(d: CivilDate): (s: string)
    ensures |s| == 8
  {
    Pad2(d.year % 100) + "-" + Pad2(d.month) + "-" + Pad2(d.day)
  }

  /** The character pattern of `yyyy-MM-dd`: digits everywhere but two dashes. */
  predicate FullDateShape(s: string)
  {
    |s| == 10 && s[4] == '-' && s[7] == '-' &&
    IsDigit(s[0]) && IsDigit(s[1]) && IsDigit(s[2]) && IsDigit(s[3]) &&
    IsDigit(s[5]) && IsDigit(s[6]) && IsDigit(s[8]) && IsDigit(s[9])
  }

  /** `DateTime.TryParseExact(s, "yyyy-MM-dd", InvariantCulture, DateTimeStyles.None)`:
      exactly ten characters, no surrounding white space, and a date that exists.
      A successful parse is canonical: the string is the rendering of the date. */
  function ParseFullDate(s: string): (r: Option<CivilDate>)
    ensures r.Some? ==> FormatFullDate(r.value) == s
  {
    if !FullDateShape(s) then None
    else
      var d := Date(100 * TwoDigits(s[0], s[1]) + TwoDigits(s[2], s[3]),
                    TwoDigits(s[5], s[6]), TwoDigits(s[8], s[9]));
      if ValidDate(d) then
        assert FormatFullDate(d) == s by { DigitsRoundTrip(s); }
        Some(d)
      else None
  }

  lemma DigitsRoundTrip(s: string)
    requires FullDateShape(s)
    ensures Pad4(100 * TwoDigits(s[0], s[1]) + TwoDigits(s[2], s[3])) == s[..4]
    ensures Pad2(TwoDigits(s[5], s[6])) == s[5..7]
    ensures Pad2(TwoDigits(s[8], s[9])) == s[8..]
  {
    var hi, lo := TwoDigits(s[0], s[1]), TwoDigits(s[2], s[3]);
    assert (100 * hi + lo) / 100 == hi && (100 * hi + lo) % 100 == lo;
    Pad2RoundTrip(s[0], s[1]);
    Pad2RoundTrip(s[2], s[3]);
    Pad2RoundTrip(s[5], s[6]);
    Pad2RoundTrip(s[8], s[9]);
  }

  lemma Pad2RoundTrip(hi: char, lo: char)
    requires IsDigit(hi) && IsDigit(lo)
    ensures Pad2(TwoDigits(hi, lo)) == [hi, lo]
  {
    var n := TwoDigits(hi, lo);
    assert n / 10 == DigitValue(hi) && n % 10 == DigitValue(lo);
  }

  /** Every civil date is accepted in its `yyyy-MM-dd` rendering and parses back to itself. */
  lemma {:induction false} FullDateRoundTrip(d: CivilDate)
    ensures ParseFullDate(FormatFullDate(d)) == Some(d)
  {
    var s := FormatFullDate(d);
    assert s[..4] == Pad4(d.year) && s[5..7] == Pad2(d.month) && s[8..] == Pad2(d.day);
    assert FullDateShape(s);
  }

  /** Two dates with the same rendering are the same date. */
  lemma {:induction false} FormatFullDateInjective(d1: CivilDate, d2: CivilDate)
    requires FormatFullDate(d1) == FormatFullDate(d2)
    ensures d1 == d2
  {
    FullDateRoundTrip(d1);
    FullDateRoundTrip(d2);
  }

  /** The `yy-MM-dd` rendering keeps the year modulo 100, the month and the day, and nothing else. */
  lemma {:induction false} ShortDateDetermines(d1: CivilDate, d2: CivilDate)
    ensures FormatShortDate(d1) == FormatShortDate(d2) <==>
            (d1.year % 100 == d2.year % 100 && d1.month == d2.month && d1.day == d2.day)
  {
    var s1, s2 := FormatShortDate(d1), FormatShortDate(d2);
    assert s1[..2] == Pad2(d1.year % 100) && s1[3..5] == Pad2(d1.month) && s1[6..] == Pad2(d1.day);
    assert s2[..2] == Pad2(d2.year % 100) && s2[3..5] == Pad2(d2.month) && s2[6..] == Pad2(d2.day);
    if s1 == s2 {
      assert s1[..2] == s2[..2] && s1[3..5] == s2[3..5] && s1[6..] == s2[6..];
    }
  }
}
