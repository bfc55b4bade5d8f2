/**
  The date reasoning of the holiday tool: today's weekday label and distance to
  the weekend, whether today is a workday according to the exception calendar,
  and which rest day comes next (this year's calendar first, next year's as a
  best-effort fallback).

  The calendar service is injected as `fetch`, a function from a year to what
  the HTTP request and JSON decoding produced. Go gives no order to the
  iteration of a map, so `visit` supplies, for every calendar, the order in
  which `range` visits its keys; the properties below hold for every such order.
*/
module Holiday {
  import opened Wrappers
  import opened CivilDate

  /** One day of the calendar, reduced to the fields the core reads. `holiday`
      is true for a day off and false for a compensatory workday. */
  datatype HolidayItem = HolidayItem(holiday: bool, name: string, date: string)

  /** The decoded service reply: a status code and the days keyed by "MM-DD". */
  datatype HolidayResponse = HolidayResponse(code: int, holiday: map<string, HolidayItem>)

  /** What the network request and JSON decoding produced. */
  datatype Download = Decoded(response: HolidayResponse) | RequestFailed

  datatype FetchError = RequestError | ApiCodeNotZero(code: int)

  datatype WorkInfo = WorkInfo(
    isWorkDay: bool,
    nearestName: string,
    daysToHoliday: int,
    weekdayName: string,
    daysToWeekend: int)

  // ----- weekday helper --------------------------------------------------------

  const Sunday := 0
  const Saturday := 6

  /** Labels indexed by weekday ordinal, Sunday = 0 ... Saturday = 6. */
  const WeekdayNames: seq<string> := ["周日", "周一", "周二", "周三", "周四", "周五", "周六"]

  predicate IsWeekend(wd: int) {
    wd == Saturday || wd == Sunday
  }

  /** The weekday `k` days after weekday `wd`. */
  function DayAfter(wd: int, k: int): int {
    (wd + k) % 7
  }

  /** The label of weekday `wd` and the number of days until the weekend: the
      fewest days one must wait, from `wd`, to stand on a Saturday or Sunday. */
  function WeekdayAndDaysToWeekend(wd: int): (r: (string, int))
    requires Sunday <= wd <= Saturday
    ensures r.0 == WeekdayNames[wd]
    ensures forall w :: Sunday <= w <= Saturday && w != wd ==> WeekdayNames[w] != r.0
    ensures r.1 == 0 <==> IsWeekend(wd)
    ensures !IsWeekend(wd) ==> 1 <= r.1 <= 5 && DayAfter(wd, r.1) == Saturday
    ensures IsWeekend(DayAfter(wd, r.1))
    ensures forall k :: 0 <= k < r.1 ==> !IsWeekend(DayAfter(wd, k))
  {
    var name := WeekdayNames[wd];
    if wd == Saturday || wd == Sunday then (name, 0) else (name, Saturday - wd)
  }

  // ----- the calendar service -------------------------------------------------

  /** A reply counts as a calendar only when the request succeeded and the
      service's status code is 0. */
  function FetchHolidayYear(fetch: int -> Download, year: int): (r: Result<HolidayResponse, FetchError>)
    ensures r.Success? <==> fetch(year).Decoded? && fetch(year).response.code == 0
    ensures r.Success? ==> r.value == fetch(year).response
    ensures fetch(year).RequestFailed? ==> r == Failure(RequestError)
    ensures fetch(year).Decoded? && fetch(year).response.code != 0
      ==> r == Failure(ApiCodeNotZero(fetch(year).response.code))
  {
    match fetch(year)
    case RequestFailed => Failure(RequestError)
    case Decoded(response) =>
      if response.code != 0 then Failure(ApiCodeNotZero(response.code)) else Success(response)
  }

  /** `order` lists every key of `days` exactly once: an iteration order of `range`. */
  predicate IsRangeOrder(order: seq<string>, days: map<string, HolidayItem>) {
    && (forall i, j :: 0 <= i < j < |order| ==> order[i] != order[j])
    && (forall i :: 0 <= i < |order| ==> order[i] in days)
    && (forall k :: k in days ==> k in order)
  }

  /** The entries of `days` in the order `range` visits them. */
  function Visit(days: map<string, HolidayItem>, order: seq<string>): (items: seq<HolidayItem>)
    requires IsRangeOrder(order, days)
    ensures |items| == |order|
    ensures forall i :: 0 <= i < |order| ==> items[i] == days[order[i]]
  {
    seq(|order|, i requires 0 <= i < |order| => days[order[i]])
  }

  // ----- the nearest-rest-day scan -----------------------------------------------

  /** The two variables the scans update: `nearestDate` and `info.NearestName`. */
  datatype ScanState = ScanState(nearest: Date, name: string)

  /** Before any scan: the zero time and the empty name. */
  const NothingFound := ScanState(ZeroTime, "")

  /** The date an entry offers: a rest day whose date parses and, when a floor
      is given, is not before it. Other entries offer nothing. */
  function Candidate(v: HolidayItem, floor: Option<Date>): (c: Option<Date>)
    ensures c.Some? <==>
      && v.holiday
      && ParseDate(v.date).Some?
      && !(floor.Some? && Before(ParseDate(v.date).value, floor.value))
    ensures c.Some? ==> c == ParseDate(v.date) && Valid(c.value)
  {
    if !v.holiday then None
    else match ParseDate(v.date)
      case None => None
      case Some(t) => if floor.Some? && Before(t, floor.value) then None else Some(t)
  }

  /** Whether a candidate date replaces the current state. */
  predicate Improves(t: Date, s: ScanState) {
    s.nearest == ZeroTime || Before(t, s.nearest)
  }

  function Step(s: ScanState, v: HolidayItem, floor: Option<Date>): ScanState {
    match Candidate(v, floor)
    case None => s
    case Some(t) => if Improves(t, s) then ScanState(t, v.name) else s
  }

  /** Entry `i` offers the state's date and carries its name. */
  predicate FoundAt(items: seq<HolidayItem>, floor: Option<Date>, i: int, s: ScanState)
    requires 0 <= i < |items|
  {
    Candidate(items[i], floor) == Some(s.nearest) && items[i].name == s.name
  }

  /** The state after visiting `items` in order, starting from `start`. */
  function Scan(items: seq<HolidayItem>, floor: Option<Date>, start: ScanState): (s: ScanState)
    ensures Valid(start.nearest) ==> Valid(s.nearest)
    ensures s == start || exists i :: 0 <= i < |items| && FoundAt(items, floor, i, s)
  {
    if items == [] then start
    else
      var n := |items| - 1;
      var before := Scan(items[..n], floor, start);
      var after := Step(before, items[n], floor);
      FoundInPrefix(items, n, floor, before);
      assert after == before || FoundAt(items, floor, n, after);
      after
  }

  lemma FoundInPrefix(items: seq<HolidayItem>, n: int, floor: Option<Date>, s: ScanState)
    requires 0 <= n <= |items|
    ensures (exists i :: 0 <= i < n && FoundAt(items[..n], floor, i, s))
      ==> exists i :: 0 <= i < |items| && FoundAt(items, floor, i, s)
  {
    if i :| 0 <= i < n && FoundAt(items[..n], floor, i, s) {
      assert items[..n][i] == items[i];
      assert FoundAt(items, floor, i, s);
    }
  }

  lemma ScanAppend(items: seq<HolidayItem>, v: HolidayItem, floor: Option<Date>, start: ScanState)
    ensures Scan(items + [v], floor, start) == Step(Scan(items, floor, start), v, floor)
  {
    assert (items + [v])[..|items|] == items;
  }

  /** `Step` taken apart along the loop body's three `continue`s. */
  lemma StepByCases(s: ScanState, v: HolidayItem, floor: Option<Date>)
    ensures !v.holiday ==> Step(s, v, floor) == s
    ensures v.holiday && ParseDate(v.date).None? ==> Step(s, v, floor) == s
    ensures v.holiday && ParseDate(v.date).Some? ==>
      var t := ParseDate(v.date).value;
      Step(s, v, floor) ==
        if floor.Some? && Before(t, floor.value) then s
        else if s.nearest == ZeroTime || Before(t, s.nearest) then ScanState(t, v.name)
        else s
  {
  }

  /** One `for ... range` loop over a calendar. `floor` is today for the
      current year and absent for the next-year fallback. */
  method ScanNearest(days: map<string, HolidayItem>, order: seq<string>, floor: Option<Date>, start: ScanState)
    returns (s: ScanState)
    requires IsRangeOrder(order, days)
    ensures s == Scan(Visit(days, order), floor, start)
  {
    ghost var items := Visit(days, order);
    s := start;
    for i := 0 to |order|
      invariant s == Scan(items[..i], floor, start)
    {
      var v := days[order[i]];
      assert items[..i + 1] == items[..i] + [v];
      ScanAppend(items[..i], v, floor, start);
      StepByCases(s, v, floor);
      if !v.holiday {
        continue;
      }
      var t := ParseDate(v.date);
      if t.None? {
        continue;
      }
      if floor.Some? && Before(t.value, floor.value) {
        continue;
      }
      if s.nearest == ZeroTime || Before(t.value, s.nearest) {
        s := ScanState(t.value, v.name);
      }
    }
    assert items[..|order|] == items;
  }

  // ----- the work-info calculation ----------------------------------------------

  /** The whole days in Go's largest `time.Duration` (2^63 - 1 nanoseconds,
      about 292 years). `Time.Sub` saturates there, so no distance exceeds it. */
  const MaxDurationDays := 106751

  /** Whole days from today's midnight to the midnight of `nearest`, never
      negative, and saturated at `MaxDurationDays`. */
  function DaysUntil(nearest: Date, today: Date): (n: int)
    requires Valid(nearest) && Valid(today)
    ensures 0 <= n <= MaxDurationDays
    ensures n == 0 <==> !Before(today, nearest)
    ensures !Before(nearest, today) && DayNumber(nearest) - DayNumber(today) <= MaxDurationDays
      ==> DayNumber(today) + n == DayNumber(nearest)
    ensures DayNumber(nearest) - DayNumber(today) > MaxDurationDays ==> n == MaxDurationDays
  {
    DayNumberOrder(today, nearest);
    var days := DayNumber(nearest) - DayNumber(today);
    if days < 0 then 0 else if days > MaxDurationDays then MaxDurationDays else days
  }

  /** The distance counts calendar days: walking that many days forward from
      today lands on the rest day, unless the distance saturated, in which
      case the rest day lies at least that far ahead. */
  lemma DaysUntilCountsDays(nearest: Date, today: Date)
    requires Valid(nearest) && Valid(today) && !Before(nearest, today)
    ensures var n := DaysUntil(nearest, today);
      && (n < MaxDurationDays ==> AddDays(today, n) == nearest)
      && (n == MaxDurationDays ==> !Before(nearest, AddDays(today, n)))
  {
    var n := DaysUntil(nearest, today);
    AddDaysCounts(today, n);
    DayNumberOrder(AddDays(today, n), nearest);
  }

  /** Today's work status, weekday, weekend distance and nearest rest day.
      `asked` records the years requested from the calendar service. */
  method GetTodayWorkInfo(today: Date, fetch: int -> Download, visit: map<string, HolidayItem> -> seq<string>)
    returns (r: Result<WorkInfo, FetchError>, asked: seq<int>)
    requires Valid(today)
    requires forall days :: IsRangeOrder(visit(days), days)
    ensures r.Failure? <==> FetchHolidayYear(fetch, today.year).Failure?
    ensures r.Failure? ==> r.error == FetchHolidayYear(fetch, today.year).error && asked == [today.year]
    ensures r.Success? ==>
      var days := FetchHolidayYear(fetch, today.year).value.holiday;
      var key := MonthDayKey(today);
      var first := Scan(Visit(days, visit(days)), Some(today), NothingFound);
      var next := FetchHolidayYear(fetch, today.year + 1);
      var last :=
        if first.name != "" || next.Failure? then first
        else Scan(Visit(next.value.holiday, visit(next.value.holiday)), None, first);
      && asked == (if first.name == "" then [today.year, today.year + 1] else [today.year])
      && r.value.isWorkDay == !(key in days && days[key].holiday)
      && r.value.weekdayName == WeekdayNames[WeekdayOf(today)]
      && r.value.daysToWeekend == WeekdayAndDaysToWeekend(WeekdayOf(today)).1
      && r.value.nearestName == last.name
      && r.value.daysToHoliday == (if last.nearest == ZeroTime then 0 else DaysUntil(last.nearest, today))
  {
    var year := today.year;
    var todayKey := MonthDayKey(today);

    var data := FetchHolidayYear(fetch, year);
    asked := [year];
    if data.Failure? {
      return Failure(data.error), asked;
    }

    var info := WorkInfo(false, "", 0, "", 0);

    var labels := WeekdayAndDaysToWeekend(WeekdayOf(today));
    info := info.(weekdayName := labels.0, daysToWeekend := labels.1);

    var days := data.value.holiday;
    if todayKey in days && days[todayKey].holiday {
      info := info.(isWorkDay := false);
    } else {
      info := info.(isWorkDay := true);
    }

    var s := ScanNearest(days, visit(days), Some(today), NothingFound);
    assert Valid(s.nearest);

    if s.name == "" {
      var nextData := FetchHolidayYear(fetch, year + 1);
      asked := asked + [year + 1];
      if nextData.Success? {
        var nextDays := nextData.value.holiday;
        s := ScanNearest(nextDays, visit(nextDays), None, s);
      }
    }
    assert Valid(s.nearest);
    info := info.(nearestName := s.name);

    if s.nearest != ZeroTime {
      info := info.(daysToHoliday := DaysUntil(s.nearest, today));
    }

    r := Success(info);
  }

  // ----- what the scan finds ---------------------------------------------------

  /** No offered date coincides with the zero time, which the scan uses to
      mean "nothing found yet". */
  ghost predicate NoZeroCandidate(items: seq<HolidayItem>, floor: Option<Date>) {
    forall j :: 0 <= j < |items| && Candidate(items[j], floor).Some?
      ==> Candidate(items[j], floor).value != ZeroTime
  }

  /** Some entry offers a date that would replace `s`. */
  ghost predicate AnyImproves(items: seq<HolidayItem>, floor: Option<Date>, s: ScanState) {
    exists j :: 0 <= j < |items| && Candidate(items[j], floor).Some?
      && Improves(Candidate(items[j], floor).value, s)
  }

  /** Entry `i` offers the earliest date of all, and every entry visited
      before it offers a strictly later one. */
  ghost predicate FirstEarliest(items: seq<HolidayItem>, floor: Option<Date>, i: int) {
    && 0 <= i < |items|
    && Candidate(items[i], floor).Some?
    && (forall j :: 0 <= j < |items| && Candidate(items[j], floor).Some?
          ==> !Before(Candidate(items[j], floor).value, Candidate(items[i], floor).value))
    && (forall j :: 0 <= j < i && Candidate(items[j], floor).Some?
          ==> Before(Candidate(items[i], floor).value, Candidate(items[j], floor).value))
  }

  /** Visiting one more entry: it becomes the first earliest when it offers a
      strictly earlier date, and otherwise the previous one stays first earliest. */
  lemma EarliestExtends(items: seq<HolidayItem>, floor: Option<Date>, k: int)
    requires |items| > 0 && FirstEarliest(items[..|items| - 1], floor, k)
    ensures var n := |items| - 1;
      if Candidate(items[n], floor).Some?
         && Before(Candidate(items[n], floor).value, Candidate(items[k], floor).value)
      then FirstEarliest(items, floor, n)
      else FirstEarliest(items, floor, k)
  {
    var n := |items| - 1;
    var pre := items[..n];
    assert forall m :: 0 <= m < n ==> pre[m] == items[m];
    var ck := Candidate(items[k], floor).value;
    var c := Candidate(items[n], floor);
    if c.Some? && Before(c.value, ck) {
      forall m | 0 <= m < n && Candidate(items[m], floor).Some?
        ensures Before(c.value, Candidate(items[m], floor).value)
      {
        assert Candidate(pre[m], floor).Some?;
        BeforeIsStrictTotalOrder(c.value, ck, Candidate(items[m], floor).value);
      }
      BeforeIsStrictTotalOrder(c.value, c.value, c.value);
    } else {
      forall m | 0 <= m < |items| && Candidate(items[m], floor).Some?
        ensures !Before(Candidate(items[m], floor).value, ck)
      {
        if m < n {
          assert Candidate(pre[m], floor).Some?;
        }
      }
    }
  }

  lemma {:induction false} FirstEarliestExists(items: seq<HolidayItem>, floor: Option<Date>, j: int)
    requires 0 <= j < |items| && Candidate(items[j], floor).Some?
    ensures exists i :: FirstEarliest(items, floor, i)
  {
    var n := |items| - 1;
    var pre := items[..n];
    if m :| 0 <= m < n && Candidate(items[m], floor).Some? {
      assert pre[m] == items[m];
      FirstEarliestExists(pre, floor, m);
      var k :| FirstEarliest(pre, floor, k);
      EarliestExtends(items, floor, k);
    } else {
      var t := Candidate(items[n], floor).value;
      BeforeIsStrictTotalOrder(t, t, t);
      assert FirstEarliest(items, floor, n);
    }
  }

  /** If anything can replace `s`, so can the earliest offer. */
  lemma EarliestImproves(items: seq<HolidayItem>, floor: Option<Date>, s: ScanState, i: int)
    requires FirstEarliest(items, floor, i) && AnyImproves(items, floor, s)
    ensures Improves(Candidate(items[i], floor).value, s)
  {
    var j :| 0 <= j < |items| && Candidate(items[j], floor).Some?
      && Improves(Candidate(items[j], floor).value, s);
    BeforeIsStrictTotalOrder(Candidate(items[i], floor).value, Candidate(items[j], floor).value, s.nearest);
  }

  lemma EarliestInPrefix(items: seq<HolidayItem>, floor: Option<Date>, i: int)
    requires FirstEarliest(items, floor, i) && i < |items| - 1
    ensures FirstEarliest(items[..|items| - 1], floor, i)
  {
    var pre := items[..|items| - 1];
    assert forall m :: 0 <= m < |pre| ==> pre[m] == items[m];
  }

  /** When no entry offers a date that would replace it, the scan ends on its
      start state. */
  lemma {:induction false} ScanKeepsStart(items: seq<HolidayItem>, floor: Option<Date>, start: ScanState)
    requires !AnyImproves(items, floor, start)
    ensures Scan(items, floor, start) == start
  {
    if items != [] {
      var n := |items| - 1;
      var pre := items[..n];
      assert forall m :: 0 <= m < n ==> pre[m] == items[m];
      ScanKeepsStart(pre, floor, start);
      assert Scan(items, floor, start) == Step(start, items[n], floor);
    }
  }

  /** Otherwise the scan ends on the earliest offered date, named by the first
      entry (in visiting order) that offers it: the comparison is a strict
      `Before`, so a later entry with the same date does not replace it. */
  lemma {:induction false} ScanEndsOnFirstEarliest(items: seq<HolidayItem>, floor: Option<Date>, start: ScanState, i: int)
    requires NoZeroCandidate(items, floor)
    requires FirstEarliest(items, floor, i) && Improves(Candidate(items[i], floor).value, start)
    ensures Scan(items, floor, start) == ScanState(Candidate(items[i], floor).value, items[i].name)
  {
    var n := |items| - 1;
    var pre := items[..n];
    assert forall m :: 0 <= m < n ==> pre[m] == items[m];
    assert NoZeroCandidate(pre, floor);
    var t := Candidate(items[i], floor).value;
    var sp := Scan(pre, floor, start);
    assert Scan(items, floor, start) == Step(sp, items[n], floor);
    if i < n {
      EarliestInPrefix(items, floor, i);
      ScanEndsOnFirstEarliest(pre, floor, start, i);
      assert sp == ScanState(t, items[i].name);
    } else if AnyImproves(pre, floor, start) {
      var j :| 0 <= j < n && Candidate(pre[j], floor).Some? && Improves(Candidate(pre[j], floor).value, start);
      FirstEarliestExists(pre, floor, j);
      var k :| FirstEarliest(pre, floor, k);
      EarliestImproves(pre, floor, start, k);
      ScanEndsOnFirstEarliest(pre, floor, start, k);
      assert Before(t, Candidate(pre[k], floor).value);
    } else {
      ScanKeepsStart(pre, floor, start);
    }
  }

  /** Removing the entries that offer nothing: rest days that are compensatory
      workdays, dates that do not parse, dates before the floor. */
  function Offering(items: seq<HolidayItem>, floor: Option<Date>): (r: seq<HolidayItem>)
    ensures |r| <= |items|
    ensures forall j :: 0 <= j < |r| ==> Candidate(r[j], floor).Some?
  {
    if items == [] then []
    else
      var n := |items| - 1;
      Offering(items[..n], floor) + (if Candidate(items[n], floor).Some? then [items[n]] else [])
  }

  /** Entries that offer nothing never change `nearestDate` or the name. */
  lemma {:induction false} ScanIgnoresNonOffering(items: seq<HolidayItem>, floor: Option<Date>, start: ScanState)
    ensures Scan(items, floor, start) == Scan(Offering(items, floor), floor, start)
  {
    if items != [] {
      var n := |items| - 1;
      var pre := items[..n];
      ScanIgnoresNonOffering(pre, floor, start);
      assert Scan(items, floor, start) == Step(Scan(pre, floor, start), items[n], floor);
      if Candidate(items[n], floor).Some? {
        assert Offering(items, floor) == Offering(pre, floor) + [items[n]];
        ScanAppend(Offering(pre, floor), items[n], floor, start);
      } else {
        assert Offering(items, floor) == Offering(pre, floor);
      }
    }
  }

  // ----- the scan over a whole calendar ---------------------------------------

  ghost predicate CalendarNoZero(days: map<string, HolidayItem>, floor: Option<Date>) {
    forall k :: k in days && Candidate(days[k], floor).Some? ==> Candidate(days[k], floor).value != ZeroTime
  }

  /** Key `k` offers a date no other entry of the calendar beats. */
  ghost predicate IsEarliestEntry(days: map<string, HolidayItem>, floor: Option<Date>, k: string) {
    && k in days
    && Candidate(days[k], floor).Some?
    && forall k' :: k' in days && Candidate(days[k'], floor).Some?
         ==> !Before(Candidate(days[k'], floor).value, Candidate(days[k], floor).value)
  }

  /** Whatever order `range` picks, the scan of a calendar keeps its start
      state when no entry offers a date that beats it; otherwise it ends on the
      earliest offered date, with the name of an entry that offers that date. */
  lemma ScanOverCalendar(days: map<string, HolidayItem>, order: seq<string>, floor: Option<Date>, start: ScanState)
    requires IsRangeOrder(order, days)
    requires CalendarNoZero(days, floor)
    ensures var s := Scan(Visit(days, order), floor, start);
      && ((forall k :: k in days && Candidate(days[k], floor).Some?
             ==> !Improves(Candidate(days[k], floor).value, start)) ==> s == start)
      && ((exists k :: k in days && Candidate(days[k], floor).Some?
             && Improves(Candidate(days[k], floor).value, start)) ==>
            && Improves(s.nearest, start)
            && exists k :: IsEarliestEntry(days, floor, k)
                 && Candidate(days[k], floor) == Some(s.nearest) && days[k].name == s.name)
  {
    var items := Visit(days, order);
    var s := Scan(items, floor, start);
    assert NoZeroCandidate(items, floor) by {
      forall j | 0 <= j < |items| && Candidate(items[j], floor).Some?
        ensures Candidate(items[j], floor).value != ZeroTime
      {
        assert order[j] in days;
      }
    }
    if k :| k in days && Candidate(days[k], floor).Some? && Improves(Candidate(days[k], floor).value, start) {
      var j :| 0 <= j < |order| && order[j] == k;
      assert AnyImproves(items, floor, start);
      FirstEarliestExists(items, floor, j);
      var i :| FirstEarliest(items, floor, i);
      EarliestImproves(items, floor, start, i);
      ScanEndsOnFirstEarliest(items, floor, start, i);
      forall k' | k' in days && Candidate(days[k'], floor).Some?
        ensures !Before(Candidate(days[k'], floor).value, Candidate(days[order[i]], floor).value)
      {
        var j' :| 0 <= j' < |order| && order[j'] == k';
        assert items[j'] == days[k'];
      }
      assert IsEarliestEntry(days, floor, order[i]);
    } else {
      forall j | 0 <= j < |items|
        ensures !(Candidate(items[j], floor).Some? && Improves(Candidate(items[j], floor).value, start))
      {
        assert order[j] in days;
      }
      ScanKeepsStart(items, floor, start);
    }
  }

  /** The date the scan settles on does not depend on the order `range`
      visits the calendar in; only the name can, among entries sharing that date. */
  lemma ScanDateIgnoresOrder(days: map<string, HolidayItem>, o1: seq<string>, o2: seq<string>, floor: Option<Date>, start: ScanState)
    requires IsRangeOrder(o1, days) && IsRangeOrder(o2, days)
    requires CalendarNoZero(days, floor)
    ensures Scan(Visit(days, o1), floor, start).nearest == Scan(Visit(days, o2), floor, start).nearest
  {
    ScanOverCalendar(days, o1, floor, start);
    ScanOverCalendar(days, o2, floor, start);
    var s1, s2 := Scan(Visit(days, o1), floor, start), Scan(Visit(days, o2), floor, start);
    if exists k :: k in days && Candidate(days[k], floor).Some? && Improves(Candidate(days[k], floor).value, start) {
      var k1 :| IsEarliestEntry(days, floor, k1) && Candidate(days[k1], floor) == Some(s1.nearest);
      var k2 :| IsEarliestEntry(days, floor, k2) && Candidate(days[k2], floor) == Some(s2.nearest);
      BeforeIsStrictTotalOrder(s1.nearest, s2.nearest, s1.nearest);
    }
  }

  /** In the current-year scan the floor is today, so when today is later than
      the zero time no offered date can be mistaken for "nothing found". */
  lemma TodayFloorExcludesZero(days: map<string, HolidayItem>, today: Date)
    requires Before(ZeroTime, today)
    ensures CalendarNoZero(days, Some(today))
  {
  }

  /** The current-year scan: nothing when no rest day of this year's calendar
      has a parsable date from today on; otherwise the earliest such day, which
      is today or later, and whose distance is 0 exactly when it is today. */
  lemma ThisYearNearest(days: map<string, HolidayItem>, order: seq<string>, today: Date)
    requires Valid(today) && Before(ZeroTime, today)
    requires IsRangeOrder(order, days)
    ensures var s := Scan(Visit(days, order), Some(today), NothingFound);
      && ((forall k :: k in days ==> Candidate(days[k], Some(today)).None?) ==> s == NothingFound)
      && ((exists k :: k in days && Candidate(days[k], Some(today)).Some?) ==>
            && s.nearest != ZeroTime
            && !Before(s.nearest, today)
            && (DaysUntil(s.nearest, today) == 0 <==> s.nearest == today)
            && exists k :: IsEarliestEntry(days, Some(today), k)
                 && Candidate(days[k], Some(today)) == Some(s.nearest) && days[k].name == s.name)
  {
    TodayFloorExcludesZero(days, today);
    ScanOverCalendar(days, order, Some(today), NothingFound);
    var s := Scan(Visit(days, order), Some(today), NothingFound);
    if exists k :: k in days && Candidate(days[k], Some(today)).Some? {
      var k :| k in days && Candidate(days[k], Some(today)).Some?;
      assert Improves(Candidate(days[k], Some(today)).value, NothingFound);
      var e :| IsEarliestEntry(days, Some(today), e) && Candidate(days[e], Some(today)) == Some(s.nearest);
      BeforeIsStrictTotalOrder(s.nearest, today, s.nearest);
    }
  }

  /** The next-year fallback after a current-year scan that found nothing: no
      floor applies, so every rest day whose date parses is offered, and the
      result is the earliest of them, or still nothing when there is none. */
  lemma FallbackNearest(next: map<string, HolidayItem>, order: seq<string>)
    requires IsRangeOrder(order, next)
    requires CalendarNoZero(next, None)
    ensures forall k :: k in next ==>
              (Candidate(next[k], None).Some? <==> next[k].holiday && ParseDate(next[k].date).Some?)
    ensures var s := Scan(Visit(next, order), None, NothingFound);
      && ((forall k :: k in next ==> Candidate(next[k], None).None?) ==> s == NothingFound)
      && ((exists k :: k in next && Candidate(next[k], None).Some?) ==>
            && s.nearest != ZeroTime
            && exists k :: IsEarliestEntry(next, None, k)
                 && Candidate(next[k], None) == Some(s.nearest) && next[k].name == s.name)
  {
    ScanOverCalendar(next, order, None, NothingFound);
    var s := Scan(Visit(next, order), None, NothingFound);
    if k :| k in next && Candidate(next[k], None).Some? {
      assert Improves(Candidate(next[k], None).value, NothingFound);
    }
  }
}
