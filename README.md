# what-today: date reasoning, modelled in Dafny

The tool answers four questions about today: its weekday label, how many days
remain until the weekend, whether today is a workday, and how far away the next
rest day is and what it is called. It reads a yearly exception calendar from a
holiday web service. The calendar maps `"MM-DD"` keys to entries. An entry is
either a day off (`holiday = true`) or a compensatory workday (`holiday = false`).

This project models that reasoning (`holiday.go`) and proves what it computes.

- `wrappers.dfy` (module `Wrappers`): `Option` and `Result`.
- `civil_date.dfy` (module `CivilDate`): the parts of Go's `time` package the
  core relies on.
  - Proleptic Gregorian dates and their order (`Before`).
  - A day count from 0000-01-01 (`DayNumber`), proved to agree with that order.
  - The next day and the day `k` days later, proved to add one (or `k`) to the
    day count and to the weekday, so the weekday follows from one known date.
  - The `"2006-01-02"` parse layout and the `"01-02"` key layout, with
    round-trip lemmas.
- `holiday.dfy` (module `Holiday`): the core.
  - `WeekdayAndDaysToWeekend`.
  - The status-code rule of `FetchHolidayYear`.
  - The calendar scan as a method (`ScanNearest`) with a loop invariant, proved
    equal to a fold (`Scan`).
  - Lemmas that say what the fold finds.
  - `GetTodayWorkInfo` itself.
- `holiday_examples.dfy` (module `HolidayExamples`): the model evaluated on
  concrete days and calendars.

How the model stands in for the things the code gets from outside:

- **Today** is a `Date` parameter. Its weekday is computed from the date,
  because 0000-01-01 of the proleptic Gregorian calendar was a Saturday.
- **The calendar service** is a parameter `fetch: int -> Download`. For each year
  it gives either the decoded reply or `RequestFailed`. The method returns the
  list of years it asked for (`asked`), so it is visible when the next-year
  request happens.
- **Map iteration order** is a parameter `visit`. For each calendar it gives
  an order that lists every key exactly once (`IsRangeOrder`). The lemmas hold
  for every such order. The date each scan settles on does not depend on it.
  The name chosen among entries with the same date does. Through that name the
  order can also decide whether next year is requested: if one of those
  entries has an empty name and is visited first, the fallback runs. When next
  year lists an earlier date, that fallback changes the final date and
  distance as well.

Behaviour kept exactly as the code has it:

- An unlisted Saturday or Sunday counts as a workday. Only a listed entry with
  `holiday = true` makes today a rest day.
- The scan uses Go's zero `Time` (0001-01-01) to mean "nothing found yet". A
  rest day dated 0001-01-01 would be taken for that marker. `Scan` keeps this
  behaviour. The lemmas about the minimum assume no such entry.
- The fallback is triggered by an empty *name*, not by a missing date. If this
  year's scan found a rest day with an empty name, the next-year scan starts
  from that date, and the distance is still computed for it.
- Equal dates: the entry visited first keeps the name, because the comparison
  is a strict `Before`. This is what the code does. No tie-break by name or by
  the last assignment is applied.

## Model

| member | source | states |
|---|---|---|
| `CivilDate.DayNumberOrder` | holiday.go:105-109 | For real calendar days, one midnight is before another exactly when its day count is smaller. Equal day counts mean the same date. |
| `CivilDate.WeekdayOf` | holiday.go:42 | A day's weekday is an ordinal from 0 (Sunday) to 6 (Saturday). |
| `CivilDate.NextDayCounts` | holiday.go:42 | The next calendar day has a day count one higher and the following weekday. |
| `CivilDate.AddDaysCounts` | holiday.go:42 | Walking `k` days forward adds `k` to the day count and moves the weekday `k` steps on, modulo 7. With the 2025-01-01 example this fixes the weekday of every date. |
| `CivilDate.ParseDate` | holiday.go:101 | A text accepted by the `"2006-01-02"` layout denotes a real calendar day with a four-digit year. |
| `CivilDate.ParseFormatRoundTrip` | holiday.go:94-101 | Every real day with a four-digit year, written in the layout, parses back to itself. |
| `CivilDate.FormatParseRoundTrip` | holiday.go:94-101 | Every accepted text is exactly the layout's rendering of the date it denotes. So parsing is one-to-one. |
| `CivilDate.FormatParsesIffDayExists` | holiday.go:101 | The layout's text of a (year, month, day) with two-digit fields parses exactly when that day exists in that month, and then to that day. |
| `CivilDate.MonthDayKeyIdentifiesDay` | holiday.go:74 | Today's `"MM-DD"` key is the tail of the full date text. Two keys are equal exactly when month and day are equal. |
| `Holiday.WeekdayAndDaysToWeekend` | holiday.go:38-50 | The label is the weekday's entry of the seven-label table, and no other weekday has that label. The count is 0 exactly on Saturday and Sunday, and 1..5 (reaching Saturday) otherwise. It is the fewest days until a weekend day. |
| `Holiday.FetchHolidayYear` | holiday.go:53-68 | The reply is a calendar exactly when the request succeeded and the status code is 0. A failed request and a non-zero code give distinct errors. |
| `Holiday.Candidate` | holiday.go:98-108 | An entry offers a date exactly when it is a rest day whose date parses and is not before the floor. The offered date is the parsed date, a real calendar day. |
| `Holiday.Scan` | holiday.go:96-113 | The scan ends either on its start state or on the date and name of an entry that offers that date. Start dates that are real days stay real days. |
| `Holiday.ScanNearest` | holiday.go:97-113 | The `range` loop, with its three `continue`s and the strict `Before` update, computes exactly `Scan` of the entries in visiting order. |
| `Holiday.ScanKeepsStart` | holiday.go:109-112 | When no entry offers a date that would replace the state, the scan leaves `nearestDate` and the name unchanged. |
| `Holiday.ScanEndsOnFirstEarliest` | holiday.go:97-113 | Otherwise the scan ends on the earliest offered date. Its name comes from the first entry, in visiting order, that offers that date. |
| `Holiday.FirstEarliestExists` | holiday.go:97-113 | Whenever some entry offers a date, there is a first entry offering the earliest one. |
| `Holiday.ScanIgnoresNonOffering` | holiday.go:98-108 | Compensatory workdays, unparseable dates and dates before the floor never affect the outcome. The scan over all entries equals the scan over the offering ones only. |
| `Holiday.ScanOverCalendar` | holiday.go:96-113 | For any iteration order of a calendar, the scan keeps its start when nothing beats it. Otherwise it ends on a date no entry beats, with the name of an entry offering it. |
| `Holiday.ScanDateIgnoresOrder` | holiday.go:97 | The date the scan settles on is the same for every iteration order of the map. |
| `Holiday.TodayFloorExcludesZero` | holiday.go:106-109 | With today as the floor, no offered date can be the zero-time marker. |
| `Holiday.ThisYearNearest` | holiday.go:93-113 | The current-year scan finds nothing when no rest day of this year's calendar has a parsable date from today on. Otherwise it finds the earliest such day, today included. Its distance is 0 exactly when it is today. |
| `Holiday.FallbackNearest` | holiday.go:116-134 | After an empty current-year scan, the next-year scan applies no floor, so every rest day with a parsable date is offered. It finds the earliest of them, or nothing when there is none. |
| `Holiday.DaysUntil` | holiday.go:136-142 | The distance lies in 0..106751. It is 0 exactly when the rest day is not after today. Otherwise it is the difference of the two day counts, saturated at 106751, the whole days in Go's largest `Duration`, where `Time.Sub` saturates. |
| `Holiday.DaysUntilCountsDays` | holiday.go:136-142 | The distance counts calendar days: walking that many days from today lands on the rest day. When the distance saturated, the rest day is at least that far ahead. |
| `Holiday.GetTodayWorkInfo` | holiday.go:71-145 | See the list below this table. |
| `HolidayExamples.WeekdayExamples` | holiday.go:41-50 | 2025-01-01 is a Wednesday. 2025-12-30 is a Tuesday, 4 days from the weekend. 2026-10-17 is a Saturday, 0 days from it. |
| `HolidayExamples.ParseRefusesExamples` | holiday.go:101-104 | `2025-02-29`, `2025-1-01` and a text with a trailing space do not parse. |
| `HolidayExamples.ParseAcceptsLeapDay` | holiday.go:101 | `2024-02-29` parses. |
| `HolidayExamples.YearEndExample` | holiday.go:106-108 | On 2025-12-30 this year's New Year's Day is behind, so the current-year scan finds nothing. |
| `HolidayExamples.YearEndDistance` | holiday.go:136-142 | 2026-01-01 is 2 days after 2025-12-30. |
| `HolidayExamples.FarDistanceSaturates` | holiday.go:137 | A rest day on 2400-01-01 seen from 2025-12-30 is more than 292 years away, so the distance is 106751. |
| `HolidayExamples.FallbackExample` | holiday.go:119-132 | The next-year scan passes over a compensatory workday and picks New Year's Day. |

What `Holiday.GetTodayWorkInfo` states:

- If the current-year fetch fails (including a non-zero status code), the result
  is that error, with no info record, and only this year was requested.
- Otherwise `isWorkDay` is false exactly when today's key is listed with
  `holiday = true`.
- The weekday fields come from the helper.
- Next year is requested exactly when this year's scan left the name empty.
- A failed next-year request leaves the result as it was and causes no error.
- The name and distance come from the final scan state.
- The distance is 0 when no date was found, and `DaysUntil` otherwise.

## Left out

- The HTTP GET and JSON decoding in `FetchHolidayYear` (holiday.go:53-63) are network and library I/O. The model replaces them with the injected `fetch` result. Only the `Code != 0` rule is modelled.
- `time.Now()` and the local `time.Location` are the system clock and its zone. Today is a parameter.
- Time zones are not modelled. The model assumes one zone whose UTC offset lies in [0, 24h). Under that assumption, three Go details reduce to comparing and subtracting calendar days:
  - `time.Parse` returns UTC midnight, which the code compares against local midnight (holiday.go:105-106).
  - `Truncate(24*time.Hour)` works in UTC.
  - `Hours()/24` is a float that is then truncated.
  West of UTC these details can move a date by one day, and the model does not capture that.
- The payload fields `Wage`, `CnLunar`, `ExtraInfo` and `Rest` (holiday.go:14-18) are decoded but never read.
- Go's `int` is 64 bits wide. The day counts here are far below that bound, so the model uses unbounded integers. The one 64-bit limit that matters, the saturation of `Time.Sub` at about 292 years, is modelled in `DaysUntil`.
- `main.go` is not part of this model:
  - the spinner goroutine and its `done` channel are concurrency for display only;
  - the console message is plain printing of the info record;
  - `waitKeyToExit` is process and stdin I/O.
- `ScanEndsOnFirstEarliest`, `ScanOverCalendar`, `ScanDateIgnoresOrder` and `FallbackNearest` assume that no offered rest day is dated 0001-01-01. That date is Go's zero `Time`, which the code also uses as its "nothing found" marker. `Scan` and `GetTodayWorkInfo` keep the code's behaviour for such an entry.
- `ThisYearNearest` assumes today is after 0001-01-01, for the same reason.
