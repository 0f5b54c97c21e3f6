/** The controller of js/app.js: the month on screen, what the check-in
    buttons and the license form do to the store, and the figures the
    dashboard, the alert and the month grid are drawn from. The page itself
    (elements, texts, toasts, styles) is not modelled; the clock is the
    `today` and `now` parameters. */
module AppController {
  import opened Common
  import opened Calendar
  import opened DateKeys
  import opened Analytics
  import opened Storage

  /** What `handleCheckin(type)` does to the records on `today`: nothing at
      a weekend; on a working day, pressing the button of the type already
      recorded clears the day, and any other press files that type. */
  function Checkin(records: map<string, Record>, today: Date, kind: AttendanceType, now: string)
    : (r: map<string, Record>)
    ensures forall k :: k != DateKey(today) ==> Lookup(r, k) == Lookup(records, k)
    ensures IsWeekend(today) ==> r == records
    ensures !IsWeekend(today) ==>
              (Lookup(r, DateKey(today)).Some?
               <==> !(DateKey(today) in records && records[DateKey(today)].kind == kind))
    ensures !IsWeekend(today) && Lookup(r, DateKey(today)).Some? ==>
              Lookup(r, DateKey(today)).value == NewRecord(kind, None, now)
  {
    if IsWeekend(today) then records else
      var dateStr := DateKey(today);
      var existing := Lookup(records, dateStr);
      if existing.Some? && existing.value.kind == kind then records - {dateStr}
      else records[dateStr := NewRecord(kind, None, now)]
  }

  /** On a working day with no record, pressing the same button twice leaves
      no record. */
  lemma CheckinTwiceUndoes(records: map<string, Record>, today: Date, kind: AttendanceType, now1: string, now2: string)
    requires !IsWeekend(today) && DateKey(today) !in records
    ensures Checkin(Checkin(records, today, kind, now1), today, kind, now2) == records
  {
    var key := DateKey(today);
    var once := Checkin(records, today, kind, now1);
    assert once == records[key := NewRecord(kind, None, now1)];
    assert once - {key} == records;
  }

  /** On a working day, pressing 'office' and then 'remote' leaves a remote
      record, whatever the day held before. */
  lemma CheckinSwitchesType(records: map<string, Record>, today: Date, now1: string, now2: string)
    requires !IsWeekend(today)
    ensures Lookup(Checkin(Checkin(records, today, Office, now1), today, Remote, now2), DateKey(today))
            == Some(NewRecord(Remote, None, now2))
  {
  }

  /** The store holds no record under the key of a Saturday or a Sunday:
      the rule the weekend guards of the check-in buttons and of the
      license form keep. An empty store satisfies it. */
  ghost predicate NoWeekendRecord(records: map<string, Record>)
    ensures records == map[] ==> NoWeekendRecord(records)
  {
    forall d: Date :: 0 <= d.year <= 9999 && IsWeekend(d) ==> DateKey(d) !in records
  }

  /** Checking in keeps every weekend free of records. This holds of the
      model's keys, which name the local calendar day; the source keys a
      check-in by the UTC date of the button press, which can be a weekend
      date (see `DateKey`). */
  lemma CheckinKeepsWeekendsFree(records: map<string, Record>, today: Date, kind: AttendanceType, now: string)
    requires NoWeekendRecord(records) && 0 <= today.year <= 9999
    ensures NoWeekendRecord(Checkin(records, today, kind, now))
  {
    var after := Checkin(records, today, kind, now);
    forall d: Date | 0 <= d.year <= 9999 && IsWeekend(d)
      ensures DateKey(d) !in after
    {
      if DateKey(d) == DateKey(today) {
        DateKeyInjective(d, today);
      }
    }
  }

  /** What `handleLicenseSubmit` does to the records: nothing when no date is
      chosen or the date is a Saturday or Sunday; otherwise it files a license
      under the date as typed, with the chosen category. A date that does not
      read as a calendar day is not a weekend, so it is filed. */
  function LicenseSubmitted(records: map<string, Record>, dateValue: string, category: string, now: string)
    : (r: map<string, Record>)
    ensures dateValue == "" ==> r == records
    ensures ParseDateKey(dateValue).Some? && IsWeekend(ParseDateKey(dateValue).value) ==> r == records
    ensures dateValue != "" && !(ParseDateKey(dateValue).Some? && IsWeekend(ParseDateKey(dateValue).value)) ==>
              dateValue in r && r[dateValue].kind == License
              && r[dateValue].licenseType == (if category == "" then None else Some(category))
              && r[dateValue] == NewRecord(License, Some(category), now)
              && forall k :: k != dateValue ==> Lookup(r, k) == Lookup(records, k)
  {
    if dateValue == "" then records else
      var date := ParseDateKey(dateValue);
      if date.Some? && IsWeekend(date.value) then records
      else records[dateValue := NewRecord(License, Some(category), now)]
  }

  /** Submitting a license keeps every weekend free of records: the key of
      a weekend date reads back as that date, which the form refuses. */
  lemma LicenseSubmittedKeepsWeekendsFree(records: map<string, Record>, dateValue: string, category: string, now: string)
    requires NoWeekendRecord(records)
    ensures NoWeekendRecord(LicenseSubmitted(records, dateValue, category, now))
  {
    var after := LicenseSubmitted(records, dateValue, category, now);
    forall d: Date | 0 <= d.year <= 9999 && IsWeekend(d)
      ensures DateKey(d) !in after
    {
      if DateKey(d) == dateValue {
        KeyRoundTrip(d);
      }
    }
  }

  /** A license submitted for a working day appears in that month's license
      list, with its category or, when none is chosen, 'Otro'. */
  lemma SubmittedLicenseIsListed(records: map<string, Record>, d: Date, category: string, now: string)
    requires 1000 <= d.year <= 9999 && !IsWeekend(d)
    ensures LicenseEntry(DateKey(d), if category == "" then "Otro" else category)
            in MonthLicenses(MonthRecords(LicenseSubmitted(records, DateKey(d), category, now), d.year, d.month))
  {
    var key := DateKey(d);
    KeyRoundTrip(d);
    YearDigits(d.year);
    var filed := LicenseSubmitted(records, key, category, now);
    KeyInMonth(d, d.year, d.month);
    var m := MonthRecords(filed, d.year, d.month);
    assert key in m && m[key].kind == License;
    var list := MonthLicenses(m);
    var i :| 0 <= i < |list| && list[i].date == key;
    assert list[i] == LicenseEntry(key, if category == "" then "Otro" else category);
  }

  /** `navigateMonth(delta)`: the month moves by `delta`, wrapping to January
      of the next year or December of the year before. */
  function NavigatedMonth(year: int, month: int, delta: int): (r: (int, int))
    ensures 0 <= r.1 < 12
    ensures -1 <= month + delta <= 12 ==> 12 * r.0 + r.1 == 12 * year + month + delta
  {
    var m := month + delta;
    if m > 11 then (year + 1, 0)
    else if m < 0 then (year - 1, 11)
    else (year, m)
  }

  /** The 'next' and 'previous' buttons undo each other. */
  lemma NavigationRoundTrip(year: int, month: int)
    requires 0 <= month < 12
    ensures var r := NavigatedMonth(year, month, 1); NavigatedMonth(r.0, r.1, -1) == (year, month)
    ensures var r := NavigatedMonth(year, month, -1); NavigatedMonth(r.0, r.1, 1) == (year, month)
  {
  }

  /** The branch `updateAlert` takes. */
  function AlertShown(currentPercentage: real, projected: Projection, canReachTarget: bool): (a: AlertLevel)
    ensures a == GetAlertStatus(currentPercentage, projected, canReachTarget)
  {
    if currentPercentage >= 0.6 then Success
    else if projected.Ratio? && projected.value >= 0.6 && canReachTarget then Success
    else if canReachTarget then Warning
    else Danger
  }

  /** A day of the month grid: its number, whether it is a weekend, the type
      of its record when it is a working day with one, and whether it is
      today. */
  datatype Cell = Cell(day: int, weekend: bool, mark: Option<AttendanceType>, isToday: bool)

  /** The type a record shows in the grid; a type outside office, remote and
      license shows nothing. */
  function MarkOf(r: Option<Record>): Option<AttendanceType>
  {
    if r.Some? && !r.value.kind.Other? then Some(r.value.kind) else None
  }

  function DayOf(year: int, month: int, day: int): Date
    requires ValidDate(CivilDate(year, month, day))
  {
    CivilDate(year, month, day)
  }

  /** The cell `renderCalendar` draws for `d`, given the month's records. */
  function CellOf(monthRecords: map<string, Record>, d: Date, today: Date): (c: Cell)
    ensures c.day == d.day && (c.weekend <==> IsWeekend(d)) && (c.isToday <==> d == today)
    ensures c.mark.Some? ==> !IsWeekend(d) && !c.mark.value.Other?
                             && DateKey(d) in monthRecords && monthRecords[DateKey(d)].kind == c.mark.value
    ensures !IsWeekend(d) && DateKey(d) in monthRecords && !monthRecords[DateKey(d)].kind.Other? ==> c.mark.Some?
  {
    Cell(d.day, IsWeekend(d), if IsWeekend(d) then None else MarkOf(Lookup(monthRecords, DateKey(d))), d == today)
  }

  /** A working day's cell shows the type of the record the store holds for
      that day. This holds of the model's keys, which name the local
      calendar day. In the source each cell reads the key of the UTC date of
      its local midnight: west of UTC that is the day itself, east of UTC it
      is the day before, so there every record is drawn one cell later (see
      `DateKey`). */
  lemma CellShowsStoredRecord(records: map<string, Record>, d: Date, today: Date)
    requires 1000 <= d.year <= 9999 && !IsWeekend(d)
    ensures CellOf(MonthRecords(records, d.year, d.month), d, today).mark == MarkOf(Lookup(records, DateKey(d)))
  {
    DateInMonthRecords(records, d, d.year, d.month);
  }

  lemma AddMod7(a: int, b: int)
    ensures ((a % 7) + b) % 7 == (a + b) % 7
  {
    var q := a / 7;
    assert a == 7 * q + a % 7;
    assert (a % 7 + b) == (a + b) - 7 * q;
  }

  /** The blank cells before day 1 in a Monday-first grid: one fewer than
      the weekday number, and 6 for a Sunday. */
  lemma BlanksBeforeWeekday(w: int, startDay: int)
    requires 0 <= w < 7
    requires startDay == if w - 1 < 0 then 6 else w - 1
    ensures 0 <= startDay <= 6 && (startDay + 1) % 7 == w && startDay == (w + 6) % 7
  {
  }

  /** With `startDay` blank cells first, day `d` lands in the column of its
      weekday in a Monday-first week: column 0 is Monday, 6 is Sunday. */
  lemma DayUnderItsWeekday(first: Date, d: Date)
    requires first.day == 1 && d.year == first.year && d.month == first.month
    ensures ((DayOfWeek(first) + 6) % 7 + d.day - 1) % 7 == (DayOfWeek(d) + 6) % 7
  {
    var o := Ordinal(first);
    assert Ordinal(d) == o + d.day - 1;
    AddMod7(o + 4, 6);
    AddMod7(o + 10, d.day - 1);
    AddMod7(o + 4 + (d.day - 1), 6);
  }

  /** What `renderDashboard` computes before drawing. */
  datatype Dashboard = Dashboard(
    stats: MonthStats, totalWorkingDays: int, effectiveWorkingDays: int, percentage: real,
    remaining: OfficeDaysNeeded, projected: Projection, suggestion: Suggestion,
    progressSuccess: bool, alert: AlertLevel)

  /** The figures `renderDashboard` derives from the month's counts and its
      number of working days. */
  function DashboardOf(stats: MonthStats, totalWorkingDays: int): (v: Dashboard)
    requires stats.totalRegistered == stats.officeDays + stats.remoteDays
    ensures v.stats == stats && v.totalWorkingDays == totalWorkingDays
    ensures v.effectiveWorkingDays == totalWorkingDays - stats.licenseDays
    ensures stats.totalRegistered == 0 ==> v.percentage == 0.0
    ensures stats.totalRegistered > 0 ==> v.percentage == PresencePercentage(stats.officeDays, stats.totalRegistered)
    ensures 0.0 <= v.percentage <= 1.0
    ensures v.remaining == RemainingOfficeDaysNeeded(stats.officeDays, v.effectiveWorkingDays, stats.totalRegistered)
    ensures v.remaining.remainingDays + stats.totalRegistered + stats.licenseDays == totalWorkingDays
    ensures v.projected == ProjectFinalPercentage(stats.officeDays, stats.remoteDays, v.remaining.remainingDays)
    ensures v.suggestion == SuggestTomorrow(stats.officeDays, stats.remoteDays, totalWorkingDays, stats.licenseDays)
    ensures v.alert == GetAlertStatus(v.percentage, v.projected, v.remaining.possible)
    ensures v.progressSuccess <==> MeetsTarget(v.projected) || v.percentage >= Target
  {
    var effectiveWorkingDays := totalWorkingDays - stats.licenseDays;
    var percentage := if stats.totalRegistered > 0
                      then PresencePercentage(stats.officeDays, stats.totalRegistered) else 0.0;
    var remaining := RemainingOfficeDaysNeeded(stats.officeDays, effectiveWorkingDays, stats.totalRegistered);
    var projectedPercentage := ProjectFinalPercentage(stats.officeDays, stats.remoteDays, remaining.remainingDays);
    var suggestion := SuggestTomorrow(stats.officeDays, stats.remoteDays, totalWorkingDays, stats.licenseDays);
    var isOnTrack := MeetsTarget(projectedPercentage);
    Dashboard(stats, totalWorkingDays, effectiveWorkingDays, percentage, remaining, projectedPercentage,
              suggestion, isOnTrack || percentage >= 0.6, AlertShown(percentage, projectedPercentage, remaining.possible))
  }

  /** Unless the days left are negative, the progress circle is green
      exactly when the alert is a success: a projection that reaches 60%
      always comes with a reachable target. */
  lemma ProgressAgreesWithAlert(stats: MonthStats, totalWorkingDays: int)
    requires stats.totalRegistered == stats.officeDays + stats.remoteDays
    requires DashboardOf(stats, totalWorkingDays).remaining.remainingDays >= 0
    ensures DashboardOf(stats, totalWorkingDays).progressSuccess <==> DashboardOf(stats, totalWorkingDays).alert == Success
  {
    var v := DashboardOf(stats, totalWorkingDays);
    ProjectionMeetingTargetIsReachable(stats.officeDays, stats.remoteDays, v.remaining.remainingDays);
  }
  /** More days registered than the month has: the days left are negative,
      the circle is green and the alert is a danger. */
  lemma ProgressAndAlertDisagreeWhenOverRegistered()
    ensures var v := DashboardOf(MonthStats(2, 2, 0, 4), 3);
            v.remaining.remainingDays == -1 && v.progressSuccess && v.alert == Danger
  {
  }


  /** The cell `renderCalendar` draws for one day of the month. */
  method DayCell(records: map<string, Record>, date: Date, today: Date) returns (cell: Cell)
    ensures cell == CellOf(records, date, today)
  {
    var weekend := IsWeekend(date);
    var mark: Option<AttendanceType> := None;
    if !weekend {
      var record := Lookup(records, DateKey(date));
      if record.Some? {
        if record.value.kind == Office {
          mark := Some(Office);
        } else if record.value.kind == Remote {
          mark := Some(Remote);
        } else if record.value.kind == License {
          mark := Some(License);
        }
      }
    }
    cell := Cell(date.day, weekend, mark, date == today);
  }

  /** The application: the month on screen and the store it reads and writes. */
  class App {
    var currentYear: int
    var currentMonth: int
    const store: RecordStore

    predicate Valid()
      reads this
    {
      0 <= currentMonth < 12
    }

    /** The application opens on the month of `today`. */
    constructor(store: RecordStore, today: Date)
      ensures Valid() && currentYear == today.year && currentMonth == today.month
      ensures this.store == store
    {
      this.store := store;
      currentYear := today.year;
      currentMonth := today.month;
    }

    /** `navigateMonth(delta)`. */
    method NavigateMonth(delta: int)
      modifies this
      ensures Valid()
      ensures (currentYear, currentMonth) == NavigatedMonth(old(currentYear), old(currentMonth), delta)
    {
      currentMonth := currentMonth + delta;
      if currentMonth > 11 {
        currentMonth := 0;
        currentYear := currentYear + 1;
      } else if currentMonth < 0 {
        currentMonth := 11;
        currentYear := currentYear - 1;
      }
    }

    /** `handleCheckin(type)` on the day `today`, at time `now`. */
    method HandleCheckin(kind: AttendanceType, today: Date, now: string)
      modifies store
      ensures store.records == Checkin(old(store.records), today, kind, now)
      ensures store.settings == old(store.settings) && store.createdAt == old(store.createdAt)
    {
      if IsWeekend(today) {
        return;
      }
      var dateStr := DateKey(today);
      var existingRecord := store.GetRecord(dateStr);
      if existingRecord.Some? && existingRecord.value.kind == kind {
        var _ := store.DeleteRecord(dateStr);
      } else {
        var _ := store.SetRecord(dateStr, kind, None, now);
      }
    }

    /** `handleLicenseSubmit`: `dateValue` is what the date field holds and
        `category` the chosen license type. */
    method HandleLicenseSubmit(dateValue: string, category: string, now: string)
      modifies store
      ensures store.records == LicenseSubmitted(old(store.records), dateValue, category, now)
      ensures store.settings == old(store.settings) && store.createdAt == old(store.createdAt)
    {
      if dateValue == "" {
        return;
      }
      var date := ParseDateKey(dateValue);
      if date.Some? && IsWeekend(date.value) {
        return;
      }
      var _ := store.SetRecord(dateValue, License, Some(category), now);
    }

    /** `deleteLicense(dateStr)`. */
    method DeleteLicense(dateStr: string)
      modifies store
      ensures store.records == old(store.records) - {dateStr}
      ensures store.settings == old(store.settings) && store.createdAt == old(store.createdAt)
    {
      var _ := store.DeleteRecord(dateStr);
    }

    /** `renderDashboard`: the month's counts and the figures derived from
        them. */
    method RenderDashboard() returns (view: Dashboard)
      ensures view == DashboardOf(StatsOf(MonthRecords(store.records, currentYear, currentMonth)),
                                  CountWorkingDaysInMonth(currentYear, currentMonth))
    {
      var stats := store.GetMonthStats(currentYear, currentMonth);
      var totalWorkingDays := CountWorkingDaysInMonth(currentYear, currentMonth);
      view := DashboardOf(stats, totalWorkingDays);
    }

    /** `renderCalendar` on the day `today`: how many blank cells come before
        day 1, and the cell of each day of the month. */
    method RenderCalendar(today: Date) returns (startDay: int, cells: seq<Cell>)
      requires Valid()
      ensures var (y, m) := NormalizeMonth(currentYear, currentMonth);
              && 0 <= startDay <= 6
              && (startDay + 1) % 7 == DayOfWeek(DayOf(y, m, 1))
              && |cells| == DaysInMonth(y, m)
              && forall i :: 0 <= i < |cells| ==>
                   cells[i] == CellOf(MonthRecords(store.records, currentYear, currentMonth), DayOf(y, m, i + 1), today)
    {
      var (y, m) := NormalizeMonth(currentYear, currentMonth);
      var firstDay := DayOf(y, m, 1);
      var daysInMonth := DaysInMonth(y, m);
      var records := store.GetMonthRecords(currentYear, currentMonth);
      cells := [];
      var day := 1;
      while day <= daysInMonth
        invariant 1 <= day <= daysInMonth + 1
        invariant |cells| == day - 1
        invariant forall i :: 0 <= i < |cells| ==> cells[i] == CellOf(records, DayOf(y, m, i + 1), today)
      {
        var date := DayOf(y, m, day);
        var cell := DayCell(records, date, today);
        cells := cells + [cell];
        day := day + 1;
      }
      var firstWeekday := DayOfWeek(firstDay);
      startDay := firstWeekday - 1;
      if startDay < 0 {
        startDay := 6;
      }
      BlanksBeforeWeekday(firstWeekday, startDay);
    }
  }
}
