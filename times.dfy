/**
 * Instants and calendar dates as the content pipeline uses them: the zero
 * value of Go's `time.Time`, its `After` ordering and `time.Parse` with the
 * layout "2006-01-02".
 */
module Times {
  import opened Wrappers

  /** A proleptic Gregorian calendar date. */
  datatype Date = Date(year: int, month: int, day: int)

  /** An instant in UTC: a date and the nanoseconds elapsed since its midnight. */
  datatype Time = Time(date: Date, clock: int)

  /** The zero `time.Time`: January 1 of year 1, 00:00:00 UTC. */
  const ZeroTime: Time := Time(Date(1, 1, 1), 0)

  /** `t.IsZero()` */
  predicate IsZero(t: Time) {
    t == ZeroTime
  }

  /** The instant `time.Parse` yields for a date-only layout: midnight UTC. */
  function Midnight(d: Date): Time {
    Time(d, 0)
  }

  predicate DateAfter(a: Date, b: Date) {
    a.year > b.year
    || (a.year == b.year && a.month > b.month)
    || (a.year == b.year && a.month == b.month && a.day > b.day)
  }

  /** `t.After(u)`: t is strictly later than u. */
  predicate After(t: Time, u: Time) {
    DateAfter(t.date, u.date) || (t.date == u.date && t.clock > u.clock)
  }

  /** `After` is a strict total order on instants. */
  lemma AfterIsStrictTotalOrder(t: Time, u: Time, v: Time)
    ensures !After(t, t)
    ensures After(t, u) ==> !After(u, t)
    ensures After(t, u) && After(u, v) ==> After(t, v)
    ensures t != u ==> After(t, u) || After(u, t)
  {
  }

  /** Gregorian leap-year rule, as Go's `isLeap`. */
  predicate IsLeap(year: int) {
    year % 4 == 0 && (year % 100 != 0 || year % 400 == 0)
  }

  /** Number of days in `month` of `year`, as Go's `daysIn`. */
  function DaysIn(month: int, year: int): (n: int)
    ensures 28 <= n <= 31
    ensures n == 29 <==> month == 2 && IsLeap(year)
    ensures month == 2 && !IsLeap(year) ==> n == 28
    ensures month == 4 || month == 6 || month == 9 || month == 11 ==> n == 30
    ensures month in {1, 3, 5, 7, 8, 10, 12} ==> n == 31
  {
    if month == 2 then (if IsLeap(year) then 29 else 28)
    else if month == 4 || month == 6 || month == 9 || month == 11 then 30
    else 31
  }

  predicate ValidDate(d: Date) {
    1 <= d.month <= 12 && 1 <= d.day <= DaysIn(d.month, d.year)
  }

  predicate IsDigit(c: char) {
    '0' <= c <= '9'
  }

  function DigitValue(c: char): (n: int)
    requires IsDigit(c)
    ensures 0 <= n < 10
  {
    c as int - '0' as int
  }

  function DigitChar(n: int): (c: char)
    requires 0 <= n < 10
    ensures IsDigit(c) && DigitValue(c) == n
  {
    ('0' as int + n) as char
  }

  /** The text has the shape "dddd-dd-dd". */
  predicate IsDateLayout(s: string) {
    |s| == 10
    && IsDigit(s[0]) && IsDigit(s[1]) && IsDigit(s[2]) && IsDigit(s[3])
    && s[4] == '-'
    && IsDigit(s[5]) && IsDigit(s[6])
    && s[7] == '-'
    && IsDigit(s[8]) && IsDigit(s[9])
  }

  /**
   * `time.Parse("2006-01-02", s)`: exactly four year digits, a two-digit
   * month in 1..12 and a two-digit day within that month; any other text
   * is a parse error.
   */
  function ParseDate(s: string): (r: Option<Date>)
    ensures r.Some? ==> IsDateLayout(s) && ValidDate(r.value) && 0 <= r.value.year <= 9999
  {
    if !IsDateLayout(s) then None
    else
      var year := 1000 * DigitValue(s[0]) + 100 * DigitValue(s[1]) + 10 * DigitValue(s[2]) + DigitValue(s[3]);
      var month := 10 * DigitValue(s[5]) + DigitValue(s[6]);
      var day := 10 * DigitValue(s[8]) + DigitValue(s[9]);
      if 1 <= month <= 12 && 1 <= day <= DaysIn(month, year) then Some(Date(year, month, day))
      else None
  }

  /** `d.Format("2006-01-02")` for a year of at most four digits. */
  function FormatDate(d: Date): (s: string)
    requires ValidDate(d) && 0 <= d.year <= 9999
    ensures IsDateLayout(s)
  {
    [DigitChar(d.year / 1000), DigitChar(d.year / 100 % 10), DigitChar(d.year / 10 % 10), DigitChar(d.year % 10),
     '-', DigitChar(d.month / 10), DigitChar(d.month % 10),
     '-', DigitChar(d.day / 10), DigitChar(d.day % 10)]
  }

  /** Splitting a four-digit number into its decimal digits and joining them again. */
  lemma FourDigits(y: int)
    requires 0 <= y <= 9999
    ensures 1000 * (y / 1000) + 100 * (y / 100 % 10) + 10 * (y / 10 % 10) + y % 10 == y
  {
    var q := y / 10;
    assert y == 10 * q + y % 10;
    var q2 := q / 10;
    assert q == 10 * q2 + q % 10;
    assert y / 100 == q2;
    assert q2 == 10 * (q2 / 10) + q2 % 10;
    assert y / 1000 == q2 / 10;
  }

  /** Parsing what was formatted gives back the date. */
  lemma ParseFormatDate(d: Date)
    requires ValidDate(d) && 0 <= d.year <= 9999
    ensures ParseDate(FormatDate(d)) == Some(d)
  {
    var s := FormatDate(d);
    FourDigits(d.year);
    assert DigitValue(s[0]) == d.year / 1000;
    assert DigitValue(s[1]) == d.year / 100 % 10;
    assert DigitValue(s[2]) == d.year / 10 % 10;
    assert DigitValue(s[3]) == d.year % 10;
    assert 10 * DigitValue(s[5]) + DigitValue(s[6]) == d.month;
    assert 10 * DigitValue(s[8]) + DigitValue(s[9]) == d.day;
  }

  /** A digit character is the character of its value. */
  lemma DigitCharOfValue(c: char)
    requires IsDigit(c)
    ensures DigitChar(DigitValue(c)) == c
  {
  }

  /** Every date text that parses is the canonical formatting of its date. */
  lemma FormatParsedDate(s: string)
    requires ParseDate(s).Some?
    ensures FormatDate(ParseDate(s).value) == s
  {
    var d := ParseDate(s).value;
    var a, b, c, e := DigitValue(s[0]), DigitValue(s[1]), DigitValue(s[2]), DigitValue(s[3]);
    assert d.year == 1000 * a + 100 * b + 10 * c + e;
    assert d.year / 1000 == a;
    assert d.year / 100 == 10 * a + b;
    assert d.year / 100 % 10 == b;
    assert d.year / 10 == 100 * a + 10 * b + c;
    assert d.year / 10 % 10 == c;
    assert d.year % 10 == e;
    assert d.month / 10 == DigitValue(s[5]) && d.month % 10 == DigitValue(s[6]);
    assert d.day / 10 == DigitValue(s[8]) && d.day % 10 == DigitValue(s[9]);
    DigitCharOfValue(s[0]);
    DigitCharOfValue(s[1]);
    DigitCharOfValue(s[2]);
    DigitCharOfValue(s[3]);
    DigitCharOfValue(s[5]);
    DigitCharOfValue(s[6]);
    DigitCharOfValue(s[8]);
    DigitCharOfValue(s[9]);
    assert s == [s[0], s[1], s[2], s[3], s[4], s[5], s[6], s[7], s[8], s[9]];
  }
}
