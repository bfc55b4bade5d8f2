/** Worked examples: the model evaluated on concrete days and calendars. */
module HolidayExamples {
  import opened Wrappers
  import opened CivilDate
  import opened Holiday

  /** New Year's Day 2025 fell on a Wednesday; 2025-12-30 was a Tuesday, four
      days from the weekend; 2026-10-17 is a Saturday. */
  lemma WeekdayExamples()
    ensures WeekdayOf(Date(2025, 1, 1)) == 3
    ensures WeekdayOf(Date(2025, 12, 30)) == 2
    ensures WeekdayAndDaysToWeekend(WeekdayOf(Date(2025, 12, 30))) == ("周二", 4)
    ensures WeekdayAndDaysToWeekend(WeekdayOf(Date(2026, 10, 17))) == ("周六", 0)
  {
  }

  lemma ParseAcceptsLeapDay()
    ensures ParseDate("2024-02-29") == Some(Date(2024, 2, 29))
  {
    assert FormatDate(Date(2024, 2, 29)) == "2024-02-29";
    FormatParsesIffDayExists(2024, 2, 29);
  }

  /** A day that does not exist, a missing zero and trailing text are refused. */
  lemma ParseRefusesExamples()
    ensures ParseDate("2025-02-29") == None
    ensures ParseDate("2025-1-01") == None
    ensures ParseDate("2025-01-01 ") == None
  {
    assert FormatDate(Date(2025, 2, 29)) == "2025-02-29";
    FormatParsesIffDayExists(2025, 2, 29);
  }

  /** On 2025-12-30 this year's New Year's Day lies behind, so the current-year
      scan finds nothing. */
  lemma YearEndExample()
    ensures Scan([HolidayItem(true, "元旦", "2025-01-01")], Some(Date(2025, 12, 30)), NothingFound) == NothingFound
  {
    assert FormatDate(Date(2025, 1, 1)) == "2025-01-01";
    FormatParsesIffDayExists(2025, 1, 1);
  }

  /** Next year's New Year's Day is two days after 2025-12-30. */
  lemma YearEndDistance()
    ensures DaysUntil(Date(2026, 1, 1), Date(2025, 12, 30)) == 2
  {
  }

  /** A rest day in 2400 is more than 292 years after 2025-12-30, so the
      distance saturates with Go's largest duration. */
  lemma FarDistanceSaturates()
    ensures DaysUntil(Date(2400, 1, 1), Date(2025, 12, 30)) == MaxDurationDays
  {
  }

  /** The fallback finds next year's New Year's Day, passing over the
      compensatory workday listed before it. */
  lemma FallbackExample()
    ensures Scan([HolidayItem(false, "补班", "2026-01-04"), HolidayItem(true, "元旦", "2026-01-01")], None, NothingFound)
      == ScanState(Date(2026, 1, 1), "元旦")
  {
    assert FormatDate(Date(2026, 1, 1)) == "2026-01-01";
    FormatParsesIffDayExists(2026, 1, 1);
    var next := [HolidayItem(false, "补班", "2026-01-04"), HolidayItem(true, "元旦", "2026-01-01")];
    assert next[..1] == [next[0]];
    assert Scan(next[..1], None, NothingFound) == NothingFound;
  }
}
