/** The calendar part of js/calculations.js: which days of a month are working
    days (Monday to Friday of the proleptic Gregorian calendar, with no
    holidays), and how they split around the current date. Months are counted
    from 0, as JavaScript's Date does. */
module Calendar {

  /** A calendar date; `month` runs from 0 (January) to 11 (December). */
  datatype CivilDate = CivilDate(year: int, month: int, day: int)

  predicate IsLeapYear(year: int)
  {
    year % 4 == 0 && (year % 100 != 0 || year % 400 == 0)
  }

  function DaysInMonth(year: int, month: int): (n: int)
    requires 0 <= month < 12
    ensures 28 <= n <= 31
  {
    if month == 1 then (if IsLeapYear(year) then 29 else 28)
    else if month == 3 || month == 5 || month == 8 || month == 10 then 30
    else 31
  }

  predicate ValidDate(d: CivilDate)
  {
    0 <= d.month < 12 && 1 <= d.day <= DaysInMonth(d.year, d.month)
  }

  /** What a JavaScript Date denotes once its time of day is dropped: a day
      that exists in the calendar. */
  type Date = d: CivilDate | ValidDate(d) witness CivilDate(1970, 0, 1)

  /** The year `new Date(year, month, day)` stands for: 0..99 mean 1900..1999. */
  function JsYear(year: int): (y: int)
    ensures y != year <==> 0 <= year <= 99
    ensures y != year ==> y - year == 1900
  {
    if 0 <= year <= 99 then 1900 + year else year
  }

  /** The (year, month) that `new Date(year, month, day)` falls in: a month
      outside 0..11 carries into the year. */
  function NormalizeMonth(year: int, month: int): (r: (int, int))
    ensures 0 <= r.1 < 12
    ensures 12 * r.0 + r.1 == 12 * JsYear(year) + month
  {
    (JsYear(year) + month / 12, month % 12)
  }

  /** Days from 1 March of year 0 of a 400-year cycle to 1 March of year
      `yoe` of that cycle. */
  function CycleDays(yoe: int): int
  {
    yoe * 365 + yoe / 4 - yoe / 100
  }

  /** Day number, counted from 1970-01-01, of 1 March of year `y`. Years are
      counted from March so that the leap day comes last; a 400-year cycle
      has 146097 days. */
  function MarchFirst(y: int): int
  {
    var era := y / 400;
    var yoe := y - era * 400;
    era * 146097 + CycleDays(yoe) - 719468
  }

  /** Day number, counted from 1970-01-01, of the first day of a month. */
  function FirstDayNumber(year: int, month: int): int
    requires 0 <= month < 12
  {
    var mp := if month >= 2 then month - 2 else month + 10;  // March is 0
    var y := if month >= 2 then year else year - 1;
    MarchFirst(y) + (153 * mp + 2) / 5
  }

  /** Day number of day `day` of a month; day 0 is the last day of the month
      before, as in `new Date(year, month, 0)`. */
  function DayNumber(year: int, month: int, day: int): int
    requires 0 <= month < 12
  {
    FirstDayNumber(year, month) + day - 1
  }

  function Ordinal(d: Date): int
  {
    DayNumber(d.year, d.month, d.day)
  }

  /** `date.getDay()`: 0 is Sunday, 6 is Saturday; 1970-01-01 was a Thursday. */
  function DayOfWeek(d: Date): (w: int)
    ensures 0 <= w < 7
  {
    (Ordinal(d) + 4) % 7
  }

  /** `isWeekend`: the day of the week is Sunday (0) or Saturday (6). */
  predicate IsWeekend(d: Date)
    ensures IsWeekend(d) <==> WorkdayCount(DayOfWeek(d)) == 0
  {
    DayOfWeek(d) == 0 || DayOfWeek(d) == 6
  }

  /** The year part of Zeller's congruence. */
  function ZellerYear(y: int): int
  {
    var k := y % 100;
    var j := y / 100;
    k + k / 4 + j / 4 + 5 * j
  }

  /** Zeller's congruence, an independent formula for the day of the week,
      shifted so that 0 is Sunday. */
  function ZellerDayOfWeek(d: Date): int
  {
    var m := if d.month < 2 then d.month + 13 else d.month + 1;  // March = 3 .. February = 14
    var y := if d.month < 2 then d.year - 1 else d.year;
    var h := (d.day + 13 * (m + 1) / 5 + ZellerYear(y)) % 7;      // 0 = Saturday
    (h + 6) % 7
  }

  lemma Div100(q: int, r: int)
    requires 0 <= r < 100
    ensures (100 * q + r) / 100 == q && (100 * q + r) % 100 == r
  {
  }

  lemma Div4(q: int, r: int)
    requires 0 <= r < 4
    ensures (4 * q + r) / 4 == q
  {
  }

  lemma Mod4(q: int, r: int)
    ensures (4 * q + r) % 4 == r % 4
  {
  }

  lemma Mod100(q: int, r: int)
    ensures (100 * q + r) % 100 == r % 100
  {
  }

  lemma Mod400(q: int, r: int)
    requires 0 <= r < 400
    ensures (400 * q + r) % 400 == r
  {
  }

  /** The remainder by 7 is the only one in 0..6. */
  lemma ModUnique(n: int, q: int, r: int)
    requires 0 <= r < 7 && n == 7 * q + r
    ensures n % 7 == r
  {
  }

  lemma ShiftMod7(x: int, s: int)
    ensures (x + 6 + 7 * s) % 7 == (x % 7 + 6) % 7
  {
    var q, r := x / 7, x % 7;
    if r == 0 {
      ModUnique(x + 6 + 7 * s, q + s, 6);
      ModUnique(r + 6, 0, 6);
    } else {
      ModUnique(x + 6 + 7 * s, q + s + 1, r - 1);
      ModUnique(r + 6, 1, r - 1);
    }
  }

  /** The year parts of the day count and of Zeller's congruence differ by a
      whole number of weeks (146097 = 7 * 20871, 365 = 7 * 52 + 1,
      719468 = 7 * 102781 + 1). */
  lemma YearTermsAgree(y: int)
    ensures exists weeks :: MarchFirst(y) + 1 - ZellerYear(y) == 7 * weeks
  {
    var era := y / 400;
    var yoe := y - era * 400;
    var c := yoe / 100;
    var k := yoe % 100;
    assert yoe == 100 * c + k && 0 <= c < 4;
    assert y == 100 * (4 * era + c) + k;
    Div100(4 * era + c, k);
    assert (4 * era + c) / 4 == era by { Div4(era, c); }
    assert yoe / 4 == 25 * c + k / 4 by {
      assert yoe == 4 * (25 * c + k / 4) + k % 4;
      Div4(25 * c + k / 4, k % 4);
    }
    assert MarchFirst(y) + 1 - ZellerYear(y) == 7 * (20868 * era + 52 * yoe + 17 * c - 102781);
  }

  /** The month offsets of the day count and of Zeller's congruence differ by
      a whole number of weeks. */
  lemma MonthTermsAgree(mp: int)
    requires 0 <= mp < 12
    ensures exists weeks :: (153 * mp + 2) / 5 - 13 * (mp + 4) / 5 - 4 == 7 * weeks
  {
    var weeks := 4 * mp - 2;
    assert (153 * mp + 2) / 5 - 13 * (mp + 4) / 5 - 4 == 7 * weeks;
  }

  /** The day count agrees with Zeller's congruence on every date, so
      `IsWeekend` picks out exactly the Saturdays and Sundays. */
  lemma DayOfWeekMatchesZeller(d: Date)
    ensures DayOfWeek(d) == ZellerDayOfWeek(d)
  {
    var y := if d.month < 2 then d.year - 1 else d.year;
    var mp := if d.month >= 2 then d.month - 2 else d.month + 10;
    OrdinalFromMarch(d, y, mp);
    ZellerFromMarch(d, y, mp);
    YearTermsAgree(y);
    MonthTermsAgree(mp);
    var yt :| MarchFirst(y) + 1 - ZellerYear(y) == 7 * yt;
    var mt :| (153 * mp + 2) / 5 - 13 * (mp + 4) / 5 - 4 == 7 * mt;
    WeekShift(Ordinal(d), d.day, MarchFirst(y), ZellerYear(y), (153 * mp + 2) / 5, 13 * (mp + 4) / 5, yt, mt);
  }

  /** The day number of a date, counted from the 1 March that starts its
      March-based year. */
  lemma OrdinalFromMarch(d: Date, y: int, mp: int)
    requires y == if d.month < 2 then d.year - 1 else d.year
    requires mp == if d.month >= 2 then d.month - 2 else d.month + 10
    ensures Ordinal(d) == MarchFirst(y) + (153 * mp + 2) / 5 + d.day - 1
  {
  }

  /** Zeller's congruence with its month counted from March. */
  lemma ZellerFromMarch(d: Date, y: int, mp: int)
    requires y == if d.month < 2 then d.year - 1 else d.year
    requires mp == if d.month >= 2 then d.month - 2 else d.month + 10
    ensures ZellerDayOfWeek(d) == ((d.day + 13 * (mp + 4) / 5 + ZellerYear(y)) % 7 + 6) % 7
  {
    var m := if d.month < 2 then d.month + 13 else d.month + 1;
    SameQuotient(13 * (m + 1), 13 * (mp + 4), 5);
    SameRemainder(d.day + 13 * (m + 1) / 5 + ZellerYear(y), d.day + 13 * (mp + 4) / 5 + ZellerYear(y), 7);
  }

  /** Two day counts that differ by whole weeks give the same day of the week. */
  lemma WeekShift(ord: int, day: int, mf: int, zy: int, a: int, b: int, yt: int, mt: int)
    requires ord == mf + a + day - 1 && mf + 1 - zy == 7 * yt && a - b - 4 == 7 * mt
    ensures (ord + 4) % 7 == ((day + b + zy) % 7 + 6) % 7
  {
    SameRemainder(ord + 4, (day + b + zy) + 6 + 7 * (yt + mt), 7);
    ShiftMod7(day + b + zy, yt + mt);
  }

  lemma SameQuotient(a: int, b: int, n: int)
    requires a == b && n != 0
    ensures a / n == b / n
  {
  }

  lemma SameRemainder(a: int, b: int, n: int)
    requires a == b && n != 0
    ensures a % n == b % n
  {
  }

  /** Which years are leap years, read off a 400-year cycle. */
  lemma LeapInCycle(e: int, r: int)
    requires 0 <= r < 400
    ensures IsLeapYear(400 * e + r) == (r % 4 == 0 && (r % 100 != 0 || r == 0))
  {
    assert 400 * e + r == 4 * (100 * e) + r == 100 * (4 * e) + r;
    Mod4(100 * e, r);
    Mod100(4 * e, r);
    Mod400(e, r);
  }

  lemma CycleDaysStep(r: int)
    requires 0 <= r < 399
    ensures CycleDays(r + 1) - CycleDays(r)
            == 365 + (if (r + 1) % 4 == 0 then 1 else 0) - (if (r + 1) % 100 == 0 then 1 else 0)
  {
  }

  /** A year counted from March is 366 days long exactly when the February
      that ends it has a leap day. */
  lemma MarchYearLength(y: int, next: int)
    requires next == y + 1
    ensures MarchFirst(next) - MarchFirst(y) == if IsLeapYear(next) then 366 else 365
  {
    var era := y / 400;
    var yoe := y - era * 400;
    assert y == 400 * era + yoe && 0 <= yoe < 400;
    if yoe == 399 {
      assert next == 400 * (era + 1) + 0;
      assert next / 400 == era + 1;
      LeapInCycle(era + 1, 0);
    } else {
      assert next == 400 * era + (yoe + 1);
      assert next / 400 == era;
      CycleDaysStep(yoe);
      LeapInCycle(era, yoe + 1);
    }
  }

  /** The day number of the first day of a month, counted from the 1 March
      that starts its March-based year. */
  lemma FirstDayFromMarch(year: int, month: int, y: int, mp: int)
    requires 0 <= month < 12
    requires y == if month >= 2 then year else year - 1
    requires mp == if month >= 2 then month - 2 else month + 10
    ensures FirstDayNumber(year, month) == MarchFirst(y) + (153 * mp + 2) / 5
  {
  }

  /** `new Date(year, month + 1, 0)`, the expression the source uses for the
      length of a month, is the last day of the month `new Date(year, month, 1)`
      falls in, so `DaysInMonth` is the length the source computes. */
  lemma {:induction false} DayZeroIsLastDay(year: int, month: int)
    ensures var (y, m) := NormalizeMonth(year, month);
            var (y2, m2) := NormalizeMonth(year, month + 1);
            DayNumber(y2, m2, 0) == DayNumber(y, m, DaysInMonth(y, m))
  {
    var (y, m) := NormalizeMonth(year, month);
    var (y2, m2) := NormalizeMonth(year, month + 1);
    assert 12 * y2 + m2 == 12 * y + m + 1;
    if m == 11 {
      assert (y2, m2) == (y + 1, 0);
    } else {
      assert (y2, m2) == (y, m + 1);
    }
    NextMonthStart(y, m);
  }

  /** The month after (year, month) starts right after its last day. */
  lemma NextMonthStart(year: int, month: int)
    requires 0 <= month < 12
    ensures month < 11 ==> FirstDayNumber(year, month + 1) == FirstDayNumber(year, month) + DaysInMonth(year, month)
    ensures month == 11 ==> FirstDayNumber(year + 1, 0) == FirstDayNumber(year, 11) + 31
  {
    if month == 11 {
      JanuaryAfterDecember(year);
    } else if month == 1 {
      MarchAfterFebruary(year);
    } else if month == 0 {
      FebruaryAfterJanuary(year);
    } else {
      NextMonthInMarchYear(year, month);
    }
  }

  lemma JanuaryAfterDecember(year: int)
    ensures FirstDayNumber(year + 1, 0) == FirstDayNumber(year, 11) + 31
  {
    FirstDayFromMarch(year + 1, 0, year, 10);
    FirstDayFromMarch(year, 11, year, 9);
  }

  lemma FebruaryAfterJanuary(year: int)
    ensures FirstDayNumber(year, 1) == FirstDayNumber(year, 0) + 31
  {
    FirstDayFromMarch(year, 1, year - 1, 11);
    FirstDayFromMarch(year, 0, year - 1, 10);
  }

  lemma MarchAfterFebruary(year: int)
    ensures FirstDayNumber(year, 2) == FirstDayNumber(year, 1) + DaysInMonth(year, 1)
  {
    FirstDayFromMarch(year, 2, year, 0);
    FirstDayFromMarch(year, 1, year - 1, 11);
    MarchYearLength(year - 1, year);
  }

  lemma NextMonthInMarchYear(year: int, month: int)
    requires 2 <= month <= 10
    ensures FirstDayNumber(year, month + 1) == FirstDayNumber(year, month) + DaysInMonth(year, month)
  {
    FirstDayFromMarch(year, month + 1, year, month - 1);
    FirstDayFromMarch(year, month, year, month - 2);
    MonthOffsetStep(month);
  }

  /** The March-based month offsets step by the length of each month from
      March to November. */
  lemma MonthOffsetStep(month: int)
    requires 2 <= month <= 10
    ensures (153 * (month - 1) + 2) / 5 - (153 * (month - 2) + 2) / 5
            == if month == 3 || month == 5 || month == 8 || month == 10 then 30 else 31
  {
  }


  /** The Monday-to-Friday dates among days 1..n of a month, in calendar order. */
  function WorkingDaysThrough(year: int, month: int, n: nat): seq<Date>
    requires 0 <= month < 12 && n <= DaysInMonth(year, month)
  {
    if n == 0 then [] else
      var date: Date := CivilDate(year, month, n);
      WorkingDaysThrough(year, month, n - 1) + if IsWeekend(date) then [] else [date]
  }

  /** Every date among the working days through day n is a weekday of the
      month no later than day n. */
  lemma {:induction false} WorkingDaysInRange(year: int, month: int, n: nat)
    requires 0 <= month < 12 && n <= DaysInMonth(year, month)
    ensures var r := WorkingDaysThrough(year, month, n);
            forall i :: 0 <= i < |r| ==>
              r[i].year == year && r[i].month == month && 1 <= r[i].day <= n && !IsWeekend(r[i])
  {
    if n > 0 {
      var prev, r := WorkingDaysThrough(year, month, n - 1), WorkingDaysThrough(year, month, n);
      WorkingDaysInRange(year, month, n - 1);
      WorkingDaysStep(year, month, n - 1, n);
      forall i | 0 <= i < |r|
        ensures r[i].year == year && r[i].month == month && 1 <= r[i].day <= n && !IsWeekend(r[i])
      {
        if i < |prev| {
          assert r[i] == prev[i];
        }
      }
    }
  }

  /** The working days through day n come by strictly ascending day. */
  lemma {:induction false} WorkingDaysIncreasing(year: int, month: int, n: nat)
    requires 0 <= month < 12 && n <= DaysInMonth(year, month)
    ensures var r := WorkingDaysThrough(year, month, n);
            forall i, j :: 0 <= i < j < |r| ==> r[i].day < r[j].day
  {
    if n > 0 {
      var prev, r := WorkingDaysThrough(year, month, n - 1), WorkingDaysThrough(year, month, n);
      WorkingDaysIncreasing(year, month, n - 1);
      WorkingDaysInRange(year, month, n - 1);
      WorkingDaysStep(year, month, n - 1, n);
      forall i, j | 0 <= i < j < |r|
        ensures r[i].day < r[j].day
      {
        assert r[i] == prev[i];
        if j < |prev| {
          assert r[j] == prev[j];
        }
      }
    }
  }

  /** Every weekday among days 1..n of the month is among the working days
      through day n. */
  lemma {:induction false} WorkingDaysComplete(year: int, month: int, n: nat)
    requires 0 <= month < 12 && n <= DaysInMonth(year, month)
    ensures var r := WorkingDaysThrough(year, month, n);
            forall d: Date :: d.year == year && d.month == month && d.day <= n && !IsWeekend(d) ==> d in r
  {
    if n > 0 {
      var prev, r := WorkingDaysThrough(year, month, n - 1), WorkingDaysThrough(year, month, n);
      WorkingDaysComplete(year, month, n - 1);
      WorkingDaysStep(year, month, n - 1, n);
      forall d: Date | d.year == year && d.month == month && d.day <= n && !IsWeekend(d)
        ensures d in r
      {
        if d.day == n {
          assert r[|r| - 1] == d;
        } else {
          assert d in prev;
        }
      }
    }
  }

  /** Day n of a month adds itself to the working days through the day
      before it when it is not a Saturday or a Sunday. */
  lemma WorkingDaysStep(year: int, month: int, prev: nat, n: nat)
    requires 0 <= month < 12 && n == prev + 1 && n <= DaysInMonth(year, month)
    ensures var date: Date := CivilDate(year, month, n);
            WorkingDaysThrough(year, month, n)
            == WorkingDaysThrough(year, month, prev) + if IsWeekend(date) then [] else [date]
  {
  }

  /** `getWorkingDaysInMonth` as a value: every date of the month that is not
      a Saturday or a Sunday, in ascending order. */
  function WorkingDaysInMonth(year: int, month: int): (r: seq<Date>)
    ensures forall d: Date :: d in r <==> (d.year, d.month) == NormalizeMonth(year, month) && !IsWeekend(d)
    ensures Ascending(r)
  {
    var (y, m) := NormalizeMonth(year, month);
    WorkingDaysInRange(y, m, DaysInMonth(y, m));
    WorkingDaysIncreasing(y, m, DaysInMonth(y, m));
    WorkingDaysComplete(y, m, DaysInMonth(y, m));
    WorkingDaysThrough(y, m, DaysInMonth(y, m))
  }

  /** `getWorkingDaysInMonth(year, month)`: walk the days of the month and
      keep those that are not a Saturday or a Sunday. */
  method GetWorkingDaysInMonth(year: int, month: int) returns (workingDays: seq<Date>)
    ensures workingDays == WorkingDaysInMonth(year, month)
  {
    var (y, m) := NormalizeMonth(year, month);
    var daysInMonth := DaysInMonth(y, m);
    workingDays := [];
    var day := 1;
    ghost var done: nat := 0;  // the days already walked
    while day <= daysInMonth
      invariant 1 <= day <= daysInMonth + 1 && done == day - 1
      invariant workingDays == WorkingDaysThrough(y, m, done)
    {
      var date: Date := CivilDate(y, m, day);
      WorkingDaysStep(y, m, done, day);
      var dayOfWeek := DayOfWeek(date);
      if dayOfWeek != 0 && dayOfWeek != 6 {
        workingDays := workingDays + [date];
      }
      done := day;
      day := day + 1;
    }
  }

  function NextWeekday(w: int): int { if w == 6 then 0 else w + 1 }

  lemma NextMod7(x: int)
    ensures (x + 1) % 7 == NextWeekday(x % 7)
  {
  }

  /** The day after a day of the week is the next day of the week. */
  lemma NextDayOfWeek(d: Date, e: Date)
    requires e.year == d.year && e.month == d.month && e.day == d.day + 1
    ensures DayOfWeek(e) == NextWeekday(DayOfWeek(d))
  {
    assert Ordinal(e) == Ordinal(d) + 1;
    NextMod7(Ordinal(d) + 4);
  }

  /** 1 for a day of the week from Monday to Friday, 0 for Saturday and Sunday. */
  function WorkdayCount(w: int): nat { if w == 0 || w == 6 then 0 else 1 }

  /** How many of days 1..n of a month fall from Monday to Friday. */
  function WorkingDayCount(year: int, month: int, n: nat): nat
    requires 0 <= month < 12 && n <= DaysInMonth(year, month)
  {
    if n == 0 then 0 else
      var date: Date := CivilDate(year, month, n);
      WorkingDayCount(year, month, n - 1) + WorkdayCount(DayOfWeek(date))
  }

  /** The working days through day n are as many as the count says. */
  lemma {:induction false} WorkingDaysCounted(year: int, month: int, n: nat)
    requires 0 <= month < 12 && n <= DaysInMonth(year, month)
    ensures |WorkingDaysThrough(year, month, n)| == WorkingDayCount(year, month, n)
  {
    if n > 0 {
      WorkingDaysCounted(year, month, n - 1);
      WorkingDaysStep(year, month, n - 1, n);
    }
  }

  /** How many of `k` consecutive days, the first of which falls on day of
      the week `w`, fall from Monday to Friday. */
  function WorkdaysFrom(w: int, k: nat): nat
    decreases k
  {
    if k == 0 then 0 else WorkdayCount(w) + WorkdaysFrom(NextWeekday(w), k - 1)
  }

  /** Any seven consecutive days hold five days from Monday to Friday. */
  lemma SevenDays(w: int)
    requires 0 <= w < 7
    ensures WorkdaysFrom(w, 7) == 5
  {
    var w2 := NextWeekday(w);
    var w3 := NextWeekday(w2);
    var w4 := NextWeekday(w3);
    var w5 := NextWeekday(w4);
    var w6 := NextWeekday(w5);
    var w7 := NextWeekday(w6);
    assert WorkdaysFrom(w, 7) == WorkdayCount(w) + WorkdaysFrom(w2, 6);
    assert WorkdaysFrom(w2, 6) == WorkdayCount(w2) + WorkdaysFrom(w3, 5);
    assert WorkdaysFrom(w3, 5) == WorkdayCount(w3) + WorkdaysFrom(w4, 4);
    assert WorkdaysFrom(w4, 4) == WorkdayCount(w4) + WorkdaysFrom(w5, 3);
    assert WorkdaysFrom(w5, 3) == WorkdayCount(w5) + WorkdaysFrom(w6, 2);
    assert WorkdaysFrom(w6, 2) == WorkdayCount(w6) + WorkdayCount(w7);
  }

  /** The count through day `e` of a month is the count through an earlier
      day `n` and the weekdays among the days after it. */
  lemma {:induction false} WindowCount(year: int, month: int, n: nat, e: nat)
    requires 0 <= month < 12 && n < e <= DaysInMonth(year, month)
    ensures var first: Date := CivilDate(year, month, n + 1);
            WorkingDayCount(year, month, e) == WorkingDayCount(year, month, n) + WorkdaysFrom(DayOfWeek(first), e - n)
    decreases e - n
  {
    var first: Date := CivilDate(year, month, n + 1);
    CountStep(year, month, n, n + 1);
    WorkdaysFromStep(DayOfWeek(first), e - n, e - (n + 1));
    if n + 1 < e {
      var second: Date := CivilDate(year, month, n + 2);
      NextDayOfWeek(first, second);
      WindowCount(year, month, n + 1, e);
    }
  }

  lemma CountStep(year: int, month: int, prev: nat, n: nat)
    requires 0 <= month < 12 && n == prev + 1 && n <= DaysInMonth(year, month)
    ensures var date: Date := CivilDate(year, month, n);
            WorkingDayCount(year, month, n) == WorkingDayCount(year, month, prev) + WorkdayCount(DayOfWeek(date))
  {
  }

  lemma WorkdaysFromStep(w: int, k: nat, rest: nat)
    requires k == rest + 1
    ensures WorkdaysFrom(w, k) == WorkdayCount(w) + WorkdaysFrom(NextWeekday(w), rest)
  {
  }

  /** Any seven consecutive days of a month hold exactly five working days. */
  lemma FiveWorkingDaysPerWeek(year: int, month: int, n: nat)
    requires 0 <= month < 12 && n + 7 <= DaysInMonth(year, month)
    ensures WorkingDayCount(year, month, n + 7) == WorkingDayCount(year, month, n) + 5
  {
    WindowCount(year, month, n, n + 7);
    var first: Date := CivilDate(year, month, n + 1);
    SevenDays(DayOfWeek(first));
  }

  /** `countWorkingDaysInMonth`: the length of `getWorkingDaysInMonth`; every
      month has between 20 and 23 working days. */
  function CountWorkingDaysInMonth(year: int, month: int): (count: nat)
    ensures 20 <= count <= 23
  {
    var (y, m) := NormalizeMonth(year, month);
    WorkingDaysCounted(y, m, DaysInMonth(y, m));
    FourWeeks(y, m);
    CountGrowsByAtMostOne(y, m, 28, DaysInMonth(y, m));
    |WorkingDaysInMonth(year, month)|
  }

  /** Each further day adds at most one working day. */
  lemma {:induction false} CountGrowsByAtMostOne(year: int, month: int, n: nat, e: nat)
    requires 0 <= month < 12 && n <= e <= DaysInMonth(year, month)
    ensures WorkingDayCount(year, month, n) <= WorkingDayCount(year, month, e) <= WorkingDayCount(year, month, n) + (e - n)
    decreases e
  {
    if n < e {
      CountGrowsByAtMostOne(year, month, n, e - 1);
    }
  }

  /** February 2024 (a leap month starting on a Thursday) has 21 working days. */
  lemma LeapDay2024IsThursday()
    ensures DayOfWeek(CivilDate(2024, 1, 29)) == 4
  {
    assert MarchFirst(2023) == 19417;
  }

  lemma February2024()
    ensures CountWorkingDaysInMonth(2024, 1) == 21
  {
    assert NormalizeMonth(2024, 1) == (2024, 1);
    WorkingDaysCounted(2024, 1, 29);
    FourWeeks(2024, 1);
    LeapDay2024IsThursday();
  }

  /** The first 28 days of any month hold 20 working days. */
  lemma FourWeeks(year: int, month: int)
    requires 0 <= month < 12
    ensures WorkingDayCount(year, month, 28) == 20
  {
    FiveWorkingDaysPerWeek(year, month, 0);
    FiveWorkingDaysPerWeek(year, month, 7);
    FiveWorkingDaysPerWeek(year, month, 14);
    FiveWorkingDaysPerWeek(year, month, 21);
  }

  /** Calendar order: `d` is on or before `e`. */
  predicate OnOrBefore(d: CivilDate, e: CivilDate)
  {
    d.year < e.year || (d.year == e.year && (d.month < e.month || (d.month == e.month && d.day <= e.day)))
  }

  predicate Ascending(s: seq<Date>)
  {
    forall i, j :: 0 <= i < j < |s| ==> OnOrBefore(s[i], s[j]) && s[i] != s[j]
  }

  /** The month before (year, month). */
  function PrevMonth(year: int, month: int): (p: (int, int))
    requires 0 <= month < 12
    ensures 0 <= p.1 < 12 && 12 * p.0 + p.1 + 1 == 12 * year + month
  {
    if month == 0 then (year - 1, 11) else (year, month - 1)
  }

  /** A month starts right after the last day of the month before it. */
  lemma PrevMonthEnds(year: int, month: int)
    requires 0 <= month < 12
    ensures var (py, pm) := PrevMonth(year, month);
            FirstDayNumber(py, pm) + DaysInMonth(py, pm) == FirstDayNumber(year, month)
  {
    var (py, pm) := PrevMonth(year, month);
    NextMonthStart(py, pm);
  }

  /** A month starts after every day of an earlier month. */
  lemma {:induction false} LaterMonthStartsLater(y1: int, m1: int, y2: int, m2: int)
    requires 0 <= m1 < 12 && 0 <= m2 < 12 && 12 * y1 + m1 < 12 * y2 + m2
    ensures FirstDayNumber(y1, m1) + DaysInMonth(y1, m1) <= FirstDayNumber(y2, m2)
    decreases 12 * y2 + m2 - 12 * y1 - m1
  {
    var (py, pm) := PrevMonth(y2, m2);
    PrevMonthEnds(y2, m2);
    if py != y1 || pm != m1 {
      LaterMonthStartsLater(y1, m1, py, pm);
      assert FirstDayNumber(py, pm) <= FirstDayNumber(y2, m2);
    }
  }

  /** Comparing two JavaScript Dates at the same time of day compares their
      day numbers; that order is calendar order. */
  lemma CalendarOrderIsDayOrder(d: Date, e: Date)
    ensures OnOrBefore(d, e) <==> Ordinal(d) <= Ordinal(e)
  {
    if 12 * d.year + d.month < 12 * e.year + e.month {
      LaterMonthStartsLater(d.year, d.month, e.year, e.month);
    } else if 12 * e.year + e.month < 12 * d.year + d.month {
      LaterMonthStartsLater(e.year, e.month, d.year, d.month);
    }
  }

  /** The dates of `days` on or before `today`: `date <= today` with today
      set to the end of its day. */
  function UpTo(days: seq<Date>, today: Date): seq<Date>
  {
    if days == [] then []
    else (if OnOrBefore(days[0], today) then [days[0]] else []) + UpTo(days[1..], today)
  }

  /** The dates of `days` after `today`: `date > today` with today set to
      the start of its day. */
  function After(days: seq<Date>, today: Date): seq<Date>
  {
    if days == [] then []
    else (if OnOrBefore(days[0], today) then [] else [days[0]]) + After(days[1..], today)
  }

  /** `UpTo` keeps exactly the dates on or before today. */
  lemma {:induction false} UpToMembers(days: seq<Date>, today: Date)
    ensures forall d :: d in UpTo(days, today) <==> d in days && OnOrBefore(d, today)
  {
    if days != [] {
      UpToMembers(days[1..], today);
      assert days == [days[0]] + days[1..];
    }
  }

  /** `After` keeps exactly the dates after today. */
  lemma {:induction false} AfterMembers(days: seq<Date>, today: Date)
    ensures forall d :: d in After(days, today) <==> d in days && !OnOrBefore(d, today)
  {
    if days != [] {
      AfterMembers(days[1..], today);
      assert days == [days[0]] + days[1..];
    }
  }

  /** `getWorkingDaysUntilToday`, with today as a parameter. */
  function WorkingDaysUntilToday(year: int, month: int, today: Date): (r: seq<Date>)
    ensures forall d: Date :: d in r <==>
              (d.year, d.month) == NormalizeMonth(year, month) && !IsWeekend(d) && OnOrBefore(d, today)
  {
    UpToMembers(WorkingDaysInMonth(year, month), today);
    UpTo(WorkingDaysInMonth(year, month), today)
  }

  /** `getRemainingWorkingDays`, with today as a parameter. */
  function RemainingWorkingDays(year: int, month: int, today: Date): (r: seq<Date>)
    ensures forall d: Date :: d in r <==>
              (d.year, d.month) == NormalizeMonth(year, month) && !IsWeekend(d) && !OnOrBefore(d, today)
  {
    AfterMembers(WorkingDaysInMonth(year, month), today);
    After(WorkingDaysInMonth(year, month), today)
  }

  lemma AscendingTail(days: seq<Date>)
    requires Ascending(days) && days != []
    ensures Ascending(days[1..])
  {
    var rest := days[1..];
    forall i, j | 0 <= i < j < |rest| ensures OnOrBefore(rest[i], rest[j]) && rest[i] != rest[j] {
      assert rest[i] == days[i + 1] && rest[j] == days[j + 1];
    }
  }

  /** When the first of an ascending list of dates is after today, so are all. */
  lemma {:induction false} AllAfter(days: seq<Date>, today: Date)
    requires Ascending(days) && days != [] && !OnOrBefore(days[0], today)
    ensures UpTo(days, today) == [] && After(days, today) == days
    decreases |days|
  {
    var first, rest := days[0], days[1..];
    assert days == [first] + rest;
    if rest != [] {
      AscendingTail(days);
      assert OnOrBefore(first, rest[0]);
      AllAfter(rest, today);
    }
  }

  lemma KeepFirst(days: seq<Date>, today: Date)
    requires days != [] && OnOrBefore(days[0], today)
    ensures UpTo(days, today) == [days[0]] + UpTo(days[1..], today)
    ensures After(days, today) == After(days[1..], today)
  {
  }

  /** A date on or before today heads the dates up to today, so a split of
      the rest extends to a split of the whole list. */
  lemma SplitStep(days: seq<Date>, today: Date)
    requires days != [] && OnOrBefore(days[0], today)
    requires UpTo(days[1..], today) + After(days[1..], today) == days[1..]
    ensures UpTo(days, today) + After(days, today) == days
  {
    KeepFirst(days, today);
    PrependToSplit(days[0], UpTo(days[1..], today), After(days[1..], today), days[1..]);
    assert days == [days[0]] + days[1..];
  }

  lemma PrependToSplit(first: Date, early: seq<Date>, late: seq<Date>, rest: seq<Date>)
    requires early + late == rest
    ensures ([first] + early) + late == [first] + rest
  {
    assert ([first] + early) + late == [first] + (early + late);
  }

  lemma {:induction false} SplitAscending(days: seq<Date>, today: Date)
    requires Ascending(days)
    ensures UpTo(days, today) + After(days, today) == days
  {
    if days != [] {
      var first, rest := days[0], days[1..];
      assert days == [first] + rest;
      if OnOrBefore(first, today) {
        AscendingTail(days);
        SplitAscending(rest, today);
        SplitStep(days, today);
      } else {
        AllAfter(days, today);
      }
    }
  }

  /** Every working day of the month is either up to today or remaining,
      never both, and the two lists together are the month in order. */
  lemma TodaySplitsMonth(year: int, month: int, today: Date)
    ensures WorkingDaysUntilToday(year, month, today) + RemainingWorkingDays(year, month, today)
            == WorkingDaysInMonth(year, month)
    ensures forall d :: !(d in WorkingDaysUntilToday(year, month, today) && d in RemainingWorkingDays(year, month, today))
  {
    SplitAscending(WorkingDaysInMonth(year, month), today);
  }
}
