/**
  The calendar arithmetic the holiday core borrows from Go's `time` package:
  proleptic Gregorian dates, their order, a day count, the day of the week,
  the "2006-01-02" parse layout and the "01-02" format layout.

  A `Date` stands for the midnight that starts that day. All dates live in one
  time zone, so comparing two midnights is comparing two dates.
*/
module CivilDate {
  import opened Wrappers

  datatype Date = Date(year: int, month: int, day: int)

  /** Go's zero `Time` (January 1, year 1), which `IsZero` tests for. */
  const ZeroTime := Date(1, 1, 1)

  predicate IsLeap(y: int) {
    y % 4 == 0 && (y % 100 != 0 || y % 400 == 0)
  }

  /** Days in month `m` of year `y` (Go's `daysIn`). */
  function DaysIn(y: int, m: int): (n: int)
    requires 1 <= m <= 12
    ensures 28 <= n <= 31
    ensures n == 29 <==> m == 2 && IsLeap(y)
  {
    if m == 2 then (if IsLeap(y) then 29 else 28)
    else if m == 4 || m == 6 || m == 9 || m == 11 then 30
    else 31
  }

  /** A real calendar day: the month exists and the day lies within it. */
  predicate Valid(d: Date) {
    1 <= d.month <= 12 && 1 <= d.day <= DaysIn(d.year, d.month)
  }

  /** Strictly earlier (Go's `Time.Before` on two midnights). */
  predicate Before(a: Date, b: Date) {
    a.year < b.year ||
    (a.year == b.year && (a.month < b.month || (a.month == b.month && a.day < b.day)))
  }

  lemma BeforeIsStrictTotalOrder(a: Date, b: Date, c: Date)
    ensures !Before(a, a)
    ensures Before(a, b) ==> !Before(b, a)
    ensures Before(a, b) && Before(b, c) ==> Before(a, c)
    ensures a == b || Before(a, b) || Before(b, a)
  {
  }

  // ----- day numbers ---------------------------------------------------------

  function YearLength(y: int): int {
    if IsLeap(y) then 366 else 365
  }

  /** Days from 0000-01-01 to the first day of year `y`. */
  function DaysBeforeYear(y: int): int {
    365 * y + (y + 3) / 4 - (y + 99) / 100 + (y + 399) / 400
  }

  /** Days of year `y` before month `m` starts (Go's `daysBefore` table). */
  function DaysBeforeMonth(y: int, m: int): int
    requires 1 <= m <= 12
  {
    [0, 31, 59, 90, 120, 151, 181, 212, 243, 273, 304, 334][m - 1]
      + (if m > 2 && IsLeap(y) then 1 else 0)
  }

  /** Days from 0000-01-01 to `d`. */
  function DayNumber(d: Date): int
    requires Valid(d)
  {
    DaysBeforeYear(d.year) + DaysBeforeMonth(d.year, d.month) + d.day - 1
  }

  lemma YearStep(y: int)
    ensures DaysBeforeYear(y + 1) == DaysBeforeYear(y) + YearLength(y)
  {
    assert (y + 4) / 4 == (y + 3) / 4 + (if y % 4 == 0 then 1 else 0);
    assert (y + 100) / 100 == (y + 99) / 100 + (if y % 100 == 0 then 1 else 0);
    assert (y + 400) / 400 == (y + 399) / 400 + (if y % 400 == 0 then 1 else 0);
  }

  lemma {:induction false} LaterYearStartsLater(a: int, b: int)
    requires a < b
    ensures DaysBeforeYear(a) + YearLength(a) <= DaysBeforeYear(b)
    decreases b - a
  {
    YearStep(a);
    if a + 1 < b {
      LaterYearStartsLater(a + 1, b);
    }
  }

  lemma LaterMonthStartsLater(y: int, m1: int, m2: int)
    requires 1 <= m1 < m2 <= 12
    ensures DaysBeforeMonth(y, m1) + DaysIn(y, m1) <= DaysBeforeMonth(y, m2)
  {
  }

  lemma DayWithinYear(d: Date)
    requires Valid(d)
    ensures 0 <= DaysBeforeMonth(d.year, d.month) + d.day - 1 < YearLength(d.year)
  {
  }

  /** The day count agrees with the calendar order, in both directions. */
  lemma DayNumberOrder(a: Date, b: Date)
    requires Valid(a) && Valid(b)
    ensures Before(a, b) <==> DayNumber(a) < DayNumber(b)
    ensures a == b <==> DayNumber(a) == DayNumber(b)
  {
    forall x: Date, y: Date | Valid(x) && Valid(y) && Before(x, y)
      ensures DayNumber(x) < DayNumber(y)
    {
      DayWithinYear(x);
      DayWithinYear(y);
      if x.year < y.year {
        LaterYearStartsLater(x.year, y.year);
      } else if x.month < y.month {
        LaterMonthStartsLater(x.year, x.month, y.month);
      }
    }
    BeforeIsStrictTotalOrder(a, b, a);
  }

  /** Day of the week, Sunday = 0 ... Saturday = 6 (Go's `Time.Weekday`).
      0000-01-01 of the proleptic Gregorian calendar was a Saturday. */
  function WeekdayOf(d: Date): (wd: int)
    requires Valid(d)
    ensures 0 <= wd <= 6
  {
    (DayNumber(d) + 6) % 7
  }

  /** The calendar day after `d`, rolling over the month and the year. */
  function NextDay(d: Date): (e: Date)
    requires Valid(d)
    ensures Valid(e) && Before(d, e)
  {
    if d.day < DaysIn(d.year, d.month) then Date(d.year, d.month, d.day + 1)
    else if d.month < 12 then Date(d.year, d.month + 1, 1)
    else Date(d.year + 1, 1, 1)
  }

  /** Weekday ordinals step by one, modulo 7, as the day count does. */
  lemma WeekdayStep(n: int, k: int)
    ensures (n + k + 6) % 7 == ((n + 6) % 7 + k) % 7
  {
    var q := (n + 6) / 7;
    assert n + 6 == 7 * q + (n + 6) % 7;
    assert n + k + 6 == 7 * q + ((n + 6) % 7 + k);
  }

  /** The next day is exactly one day count later, and one weekday further. */
  lemma NextDayCounts(d: Date)
    requires Valid(d)
    ensures DayNumber(NextDay(d)) == DayNumber(d) + 1
    ensures WeekdayOf(NextDay(d)) == (WeekdayOf(d) + 1) % 7
  {
    var e := NextDay(d);
    if d.day == DaysIn(d.year, d.month) {
      if d.month == 12 {
        YearStep(d.year);
      } else {
        assert DaysBeforeMonth(d.year, d.month + 1) == DaysBeforeMonth(d.year, d.month) + DaysIn(d.year, d.month);
      }
    }
    assert DayNumber(e) == DayNumber(d) + 1;
    WeekdayStep(DayNumber(d), 1);
  }

  /** The day `k` days after `d`. */
  function AddDays(d: Date, k: nat): (e: Date)
    requires Valid(d)
    ensures Valid(e)
  {
    if k == 0 then d else NextDay(AddDays(d, k - 1))
  }

  /** Walking `k` days forward adds `k` to the day count and turns the weekday
      `k` steps further. */
  lemma {:induction false} AddDaysCounts(d: Date, k: nat)
    requires Valid(d)
    ensures DayNumber(AddDays(d, k)) == DayNumber(d) + k
    ensures WeekdayOf(AddDays(d, k)) == (WeekdayOf(d) + k) % 7
  {
    if k > 0 {
      var p := AddDays(d, k - 1);
      AddDaysCounts(d, k - 1);
      NextDayCounts(p);
      WeekdayStep(DayNumber(d), k);
      WeekdayStep(DayNumber(d), k - 1);
      WeekdayStep(DayNumber(p), 1);
    }
  }

  // ----- text forms ----------------------------------------------------------

  predicate IsDigit(c: char) {
    '0' <= c <= '9'
  }

  function DigitValue(c: char): (n: int)
    requires IsDigit(c)
    ensures 0 <= n <= 9
  {
    c as int - '0' as int
  }

  function Digit(n: int): (c: char)
    requires 0 <= n <= 9
    ensures IsDigit(c) && DigitValue(c) == n
  {
    ('0' as int + n) as char
  }

  predicate AllDigits(s: string) {
    forall i :: 0 <= i < |s| ==> IsDigit(s[i])
  }

  /** The value of a run of decimal digits. */
  function Decimal(s: string): (n: nat)
    requires AllDigits(s)
  {
    if s == [] then 0 else 10 * Decimal(s[..|s| - 1]) + DigitValue(s[|s| - 1])
  }

  /** `n` written with exactly `width` digits, zero-padded on the left. */
  function Padded(n: nat, width: nat): (s: string)
    ensures |s| == width && AllDigits(s)
  {
    if width == 0 then [] else Padded(n / 10, width - 1) + [Digit(n % 10)]
  }

  function Pow10(k: nat): (p: nat)
    ensures p >= 1
  {
    if k == 0 then 1 else 10 * Pow10(k - 1)
  }

  lemma {:induction false} DecimalPadded(n: nat, width: nat)
    requires n < Pow10(width)
    ensures Decimal(Padded(n, width)) == n
  {
    if width > 0 {
      var s := Padded(n, width);
      assert s[..|s| - 1] == Padded(n / 10, width - 1);
      DecimalPadded(n / 10, width - 1);
    }
  }

  lemma {:induction false} PaddedDecimal(s: string)
    requires AllDigits(s)
    ensures Decimal(s) < Pow10(|s|)
    ensures Padded(Decimal(s), |s|) == s
  {
    if s != [] {
      var init := s[..|s| - 1];
      PaddedDecimal(init);
      var n := Decimal(s);
      assert n / 10 == Decimal(init) && n % 10 == DigitValue(s[|s| - 1]);
      assert Digit(DigitValue(s[|s| - 1])) == s[|s| - 1];
      assert s == init + [s[|s| - 1]];
    }
  }

  /** Go's `time.Parse("2006-01-02", s)`: four year digits, a dash, two month
      digits, a dash, two day digits, nothing after; the month must be 1..12
      and the day must exist in that month. Anything else is a parse error. */
  function ParseDate(s: string): (r: Option<Date>)
    ensures r.Some? ==> Valid(r.value) && 0 <= r.value.year <= 9999
  {
    if |s| == 10 && s[4] == '-' && s[7] == '-'
       && AllDigits(s[..4]) && AllDigits(s[5..7]) && AllDigits(s[8..])
    then
      var y, m, d := Decimal(s[..4]), Decimal(s[5..7]), Decimal(s[8..]);
      PaddedDecimal(s[..4]);
      if 1 <= m <= 12 && 1 <= d <= DaysIn(y, m) then Some(Date(y, m, d)) else None
    else
      None
  }

  /** `d` in the "2006-01-02" layout. */
  function FormatDate(d: Date): (s: string)
    requires 0 <= d.year <= 9999 && 1 <= d.month <= 12 && 1 <= d.day <= 31
    ensures |s| == 10
  {
    Padded(d.year, 4) + "-" + Padded(d.month, 2) + "-" + Padded(d.day, 2)
  }

  /** `d` in the "01-02" layout: the calendar's "MM-DD" key. */
  function MonthDayKey(d: Date): (s: string)
    requires 1 <= d.month <= 12 && 1 <= d.day <= 31
    ensures |s| == 5
  {
    Padded(d.month, 2) + "-" + Padded(d.day, 2)
  }

  lemma FormatDateParts(d: Date)
    requires 0 <= d.year <= 9999 && 1 <= d.month <= 12 && 1 <= d.day <= 31
    ensures var s := FormatDate(d);
      s[..4] == Padded(d.year, 4) && s[4] == '-' && s[5..7] == Padded(d.month, 2)
      && s[7] == '-' && s[8..] == Padded(d.day, 2)
  {
  }

  /** Every date the layout can express parses back to itself. */
  lemma ParseFormatRoundTrip(d: Date)
    requires Valid(d) && 0 <= d.year <= 9999
    ensures ParseDate(FormatDate(d)) == Some(d)
  {
    FormatDateParts(d);
    DecimalPadded(d.year, 4);
    DecimalPadded(d.month, 2);
    DecimalPadded(d.day, 2);
  }

  /** Every accepted text is the canonical form of the date it denotes. */
  lemma FormatParseRoundTrip(s: string)
    requires ParseDate(s).Some?
    ensures FormatDate(ParseDate(s).value) == s
  {
    var d := ParseDate(s).value;
    PaddedDecimal(s[..4]);
    PaddedDecimal(s[5..7]);
    PaddedDecimal(s[8..]);
    FormatDateParts(d);
    assert s == s[..4] + [s[4]] + s[5..7] + [s[7]] + s[8..];
  }

  /** The "2006-01-02" text of a (year, month, day) parses back exactly when
      the day exists in that month. */
  lemma FormatParsesIffDayExists(y: int, m: int, d: int)
    requires 0 <= y <= 9999 && 1 <= m <= 12 && 1 <= d <= 31
    ensures ParseDate(FormatDate(Date(y, m, d)))
      == if d <= DaysIn(y, m) then Some(Date(y, m, d)) else None
  {
    FormatDateParts(Date(y, m, d));
    DecimalPadded(y, 4);
    DecimalPadded(m, 2);
    DecimalPadded(d, 2);
  }

  /** The "MM-DD" key is the tail of the full date text, and it identifies
      the month and the day. */
  lemma MonthDayKeyIdentifiesDay(a: Date, b: Date)
    requires 1 <= a.month <= 12 && 1 <= a.day <= 31
    requires 1 <= b.month <= 12 && 1 <= b.day <= 31
    ensures 0 <= a.year <= 9999 ==> MonthDayKey(a) == FormatDate(a)[5..]
    ensures MonthDayKey(a) == MonthDayKey(b) <==> a.month == b.month && a.day == b.day
  {
    var ka, kb := MonthDayKey(a), MonthDayKey(b);
    if ka == kb {
      assert ka[..2] == Padded(a.month, 2) && kb[..2] == Padded(b.month, 2);
      assert ka[3..] == Padded(a.day, 2) && kb[3..] == Padded(b.day, 2);
      DecimalPadded(a.month, 2);
      DecimalPadded(b.month, 2);
      DecimalPadded(a.day, 2);
      DecimalPadded(b.day, 2);
    }
  }
}
