# Presencia60 in Dafny

Presencia60 is a browser application for hybrid workers. It tracks, day by
day, whether the user worked at the office, remotely or was on leave, and
whether the month will reach the company's target of 60% of working days at
the office. This project models its core and proves properties of the model:

- **Calendar** (`calendar.dfy`): the working days of a month (Monday to
  Friday, no holidays) from `js/calculations.js`. This covers
  `getWorkingDaysInMonth`, `countWorkingDaysInMonth`, `isWeekend`, and how
  `getWorkingDaysUntilToday` and `getRemainingWorkingDays` split the month
  around today. Dates follow JavaScript's `Date`: months from 0,
  `new Date(y, m, d)` carrying an out-of-range month into the year, two-digit
  years meaning 19xx. The day of the week comes from a day count since
  1970-01-01, and a lemma shows it agrees with Zeller's congruence.
- **Analytics** (`analytics.dfy`): the percentage, the office days still
  needed, the month-end projection, the suggestion for tomorrow and the
  alert level. Ratios are exact rationals, and the target 0.60 is 3/5.
- **Date keys** (`datekeys.dfy`): the `YYYY-MM-DD` strings that records are
  filed under (`formatDate`), the month prefix the store selects by, and the
  reading of a date typed into the license form.
- **Storage** (`storage.dfy`): the record store of
  `presencia60/js/storage.js`. It is a class whose `records` map is updated
  in place by `SetRecord` and `DeleteRecord`, plus the month queries
  (records, counts, license list) and the loading of the stored document.
- **Controller** (`app.dfy`): the part of `js/app.js` that is not drawing.
  It covers the month on screen and its navigation, what the check-in
  buttons and the license form do to the store, the figures the dashboard
  and the alert are drawn from, and the month grid's blank cells and day
  cells.
- **Common** (`common.dfy`): an Option type and the JavaScript string
  operations the application relies on: `String(n)`, `padStart`,
  `startsWith`, string order and sorting.

Today's date, the current time and the random user token are parameters.

Two points of the code are worth stating exactly. Whether the target is
still `possible` is decided by comparing the unclamped shortfall
`targetOfficeDays - currentOfficeDays` with the days left, not the clamped
`needed` (js/calculations.js:94). `Analytics.PossibleUsesUnclampedShortfall`
exhibits an input where the two comparisons differ. `getMonthRecords`
selects records by the string prefix `${year}-MM` of their keys
(presencia60/js/storage.js:54). `DateKeys.KeyInMonth` shows that this
selects exactly the dates of the calendar month for years 1000 to 9999.

## Model

| member | source | states |
|---|---|---|
| Common.NatToString | presencia60/js/storage.js:54 | `String(n)` is a non-empty digit string that denotes n, with one digit exactly when n < 10 |
| Common.PaddedNumber | presencia60/js/storage.js:54 | `padStart` with zeros keeps the digits' value and gives exactly the width when the number fits |
| Common.PaddedDigits | js/calculations.js:171 | every digit string is the zero-padded rendering of its value, so a key's fields write back unchanged |
| Common.IntToString | presencia60/js/storage.js:54 | `String(year)`: the digits of a non-negative number, or '-' before the digits of the magnitude of a negative one |
| Common.PadStartShape | presencia60/js/storage.js:54 | `padStart(width, '0')` keeps the string at the end, reaches exactly the width when the string is shorter, and puts only zeros in front |
| Common.StartsWithAt | presencia60/js/storage.js:57 | `startsWith` holds exactly when the prefix is no longer than the string and agrees with it character by character |
| Common.Below | presencia60/js/storage.js:78 | no string is below itself, and a proper prefix comes before every longer string it begins |
| Common.BelowAsymmetric | presencia60/js/storage.js:78 | of two strings, at most one is below the other |
| Common.BelowTransitive | presencia60/js/storage.js:78 | the string order is transitive |
| Common.BelowTotal | presencia60/js/storage.js:78 | of two different strings, one is below the other |
| Common.SortedStrings | presencia60/js/storage.js:78 | the sorted keys are exactly the set's members, each once, in strictly ascending string order |
| Calendar.NormalizeMonth | js/calculations.js:20 | `new Date(year, month, d)` lands in a month 0..11 with 12·year' + month' = 12·JsYear(year) + month |
| Calendar.JsYear | js/calculations.js:20 | a year changes only when it is 0..99, and then it becomes 1900 + year |
| Calendar.DayZeroIsLastDay | js/calculations.js:17 | day 0 of the next month is the last day of the month, so `getDate()` of it is `DaysInMonth` |
| Calendar.DaysInMonth | js/calculations.js:17 | every month has 28 to 31 days |
| Calendar.NextMonthStart | js/calculations.js:17 | the next month (January after December) starts the day after this month's last day |
| Calendar.PrevMonthEnds | js/calculations.js:17 | a month starts right after the last day of the month before |
| Calendar.LaterMonthStartsLater | js/calculations.js:51 | every day of an earlier month has a smaller day number than the first day of a later month |
| Calendar.CalendarOrderIsDayOrder | js/calculations.js:47-65 | comparing two dates (`date <= today`) is comparing year, month and day in that order |
| Calendar.DayOfWeek | js/calculations.js:21 | `getDay()` is a weekday number 0..6 (0 = Sunday) |
| Calendar.IsWeekend | js/calculations.js:192-196 | a date is a weekend day exactly when its weekday counts as no working day (Sunday or Saturday) |
| Calendar.DayOfWeekMatchesZeller | js/calculations.js:192-196 | `getDay()` from the day count equals Zeller's congruence on every date, so `isWeekend` picks the real Saturdays and Sundays |
| Calendar.NextDayOfWeek | js/calculations.js:19-21 | the day after day d of a month falls on the next day of the week |
| Calendar.LeapDay2024IsThursday | js/calculations.js:21 | 29 February 2024 is a Thursday (getDay 4) |
| Calendar.WorkingDaysInRange | js/calculations.js:19-26 | every date the loop keeps through day n is in the month, on day 1..n, and not a weekend |
| Calendar.WorkingDaysIncreasing | js/calculations.js:19-26 | the kept dates come by strictly ascending day |
| Calendar.WorkingDaysComplete | js/calculations.js:19-26 | every weekday among days 1..n is kept |
| Calendar.WorkingDaysInMonth | js/calculations.js:15-29 | a date is a working day of the month exactly when it lies in the (normalised) month and is not a weekend; the list is ascending with no repeats |
| Calendar.GetWorkingDaysInMonth | js/calculations.js:15-29 | the loop over days 1..daysInMonth returns exactly `WorkingDaysInMonth` |
| Calendar.WorkingDaysCounted | js/calculations.js:37-39 | the length of the working-day list through day n is the count of weekdays among days 1..n |
| Calendar.WindowCount | js/calculations.js:19-26 | the weekdays through day e are those through day n plus the weekdays among the e − n days after it |
| Calendar.FiveWorkingDaysPerWeek | js/calculations.js:19-26 | any seven consecutive days of a month hold exactly five working days |
| Calendar.FourWeeks | js/calculations.js:37-39 | the first 28 days of any month hold 20 working days |
| Calendar.CountGrowsByAtMostOne | js/calculations.js:19-26 | each further day adds zero or one working day |
| Calendar.CountWorkingDaysInMonth | js/calculations.js:37-39 | every month has between 20 and 23 working days |
| Calendar.February2024 | js/calculations.js:37-39 | February 2024 has 21 working days |
| Calendar.UpToMembers | js/calculations.js:47-52 | `getWorkingDaysUntilToday` keeps exactly the working days on or before today |
| Calendar.AfterMembers | js/calculations.js:60-65 | `getRemainingWorkingDays` keeps exactly the working days after today |
| Calendar.WorkingDaysUntilToday | js/calculations.js:47-52 | a date is listed exactly when it lies in the month, is not a weekend and is on or before today |
| Calendar.RemainingWorkingDays | js/calculations.js:60-65 | a date is listed exactly when it lies in the month, is not a weekend and is after today |
| Calendar.SplitAscending | js/calculations.js:47-65 | for an ascending list, the days up to today followed by the days after today are the list itself |
| Calendar.TodaySplitsMonth | js/calculations.js:47-65 | the days until today followed by the remaining days are the month's working days, and no day is in both |
| DateKeys.DateKey | js/calculations.js:170-172 | the key of a date with a year 0..9999 is ten characters: four digits, '-', two digits, '-', two digits |
| DateKeys.MonthPrefix | presencia60/js/storage.js:54 | for a year 1000..9999 the prefix is the four-digit year, '-' and the two-digit month number |
| DateKeys.ParseDateKey | js/app.js:188 | a date read from the license field writes back, through `formatDate`, as the very string typed |
| DateKeys.KeyRoundTrip | js/calculations.js:170-172 | reading back the key of a date with a four-digit year gives the date |
| DateKeys.DateKeyInjective | js/calculations.js:170-172 | two dates with four-digit years have the same key only if they are the same day |
| DateKeys.PrefixParts | presencia60/js/storage.js:54 | the month prefix of a year 1000..9999 is its four-digit year, '-', and the two-digit month |
| DateKeys.KeyInMonth | presencia60/js/storage.js:52-60 | a date's key starts with a month's prefix exactly when the date lies in that month |
| Analytics.TargetOfficeDays | js/calculations.js:86 | `Math.ceil(n * 0.60)`: the least integer at or above 0.6·n |
| Analytics.PresencePercentage | js/calculations.js:73-76 | 0 when the denominator is 0, otherwise p·total = office, and within 0..1 when 0 ≤ office ≤ total |
| Analytics.RemainingOfficeDaysNeeded | js/calculations.js:85-97 | target = ⌈0.6·total⌉; surplus = office − target; needed is 0 exactly when there is no shortfall, otherwise the shortfall; remainingDays = total − registered; possible iff office + remainingDays ≥ target |
| Analytics.RemainingOfficeDaysNeededExamples | js/calculations.js:85-97 | (12, 20, 20) gives needed 0, target 12, 0 days left, possible, surplus 0; (0, 20, 0) gives 12, 12, 20, possible, −12 |
| Analytics.PossibleUsesUnclampedShortfall | js/calculations.js:94 | with a surplus, `possible` holds even with −7 days left, where the clamped needed would not |
| Analytics.Round | js/calculations.js:111 | `Math.round` gives the integer within one half below and under one half above |
| Analytics.ProjectedWithinDaysLeft | js/calculations.js:110-111 | the projected office days lie between the office days made and those plus all days left |
| Analytics.ProjectedOfficeDays | js/calculations.js:110-111 | the office days plus the nearest integer to days-left × office share; with no days left, the office days |
| Analytics.ShortfallCancels | js/calculations.js:111-114 | when the days left cancel the days decided, the projected office days are 0, so the quotient is 0/0 |
| Analytics.ProjectFinalPercentage | js/calculations.js:106-115 | 0.60 with nothing decided; NaN exactly when the total days are 0 with days decided; the current percentage when no day is left; within 0..1 when no count is negative |
| Analytics.MeetsTarget | js/app.js:79 | a NaN projection never meets the target; a ratio meets it exactly when it is at least 3/5 |
| Analytics.RatioAtLeastTarget | js/calculations.js:86 | an integer whose ratio to d reaches 60% is at least ⌈0.6·d⌉ |
| Analytics.ProjectionMeetingTargetIsReachable | js/calculations.js:106-115 | a projection reaching 60% comes with `possible`, when no count is negative |
| Analytics.SuggestTomorrow | js/calculations.js:125-163 | 'none' iff no day is left; 'remote' iff days are left and no office day is needed; 'office' iff the margin is at most 2 days; 'any' iff it is 3 or more |
| Analytics.SuggestTomorrowExamples | js/calculations.js:125-163 | (0, 0, 20, 0) suggests 'any'; (10, 8, 20, 0) suggests 'office' |
| Analytics.SuggestionKeepsTargetReachable | js/calculations.js:125-163 | following the suggestion for one day keeps a reachable 60% reachable; reachability counts only the remote days, so the content is that staying home after 'remote' or 'any' keeps it |
| Analytics.HeedingSuggestionsMeetsTarget | js/calculations.js:125-163 | from a reachable month, going to the office whenever told 'office' ends the month at ⌈0.6·effective⌉ office days or more |
| Analytics.SuggestionAgreesWithNeeded | js/calculations.js:125-163 | on the dashboard's inputs, the suggestion and the needed-days record agree on days left, target met and possibility |
| Analytics.GetAlertStatus | js/calculations.js:205-216 | success iff at 60% or (projected at 60% and reachable); danger iff below 60% and unreachable; warning otherwise |
| Storage.DefaultData | presencia60/js/storage.js:18-24 | a fresh document: no records, target 0.60, user id `user_` + token, created now |
| Storage.LoadDocument | presencia60/js/storage.js:8-16 | the stored document when it parses, otherwise a fresh one with no records |
| Storage.NewRecord | presencia60/js/storage.js:34-37 | a record of the given type at `now`, with a category exactly for a license given a non-empty one |
| Storage.Lookup | presencia60/js/storage.js:30-32 | the date's record when there is one, null otherwise |
| Storage.FiledRecordIsRead | presencia60/js/storage.js:34-40 | after filing, the date reads back a record of that type and every other date is unchanged |
| Storage.DeletedRecordIsGone | presencia60/js/storage.js:42-50 | after deleting, the date reads nothing, other dates are unchanged, and deleting again changes nothing |
| Storage.MonthRecords | presencia60/js/storage.js:52-60 | exactly the records whose key starts with the month's prefix, unchanged |
| Storage.DateInMonthRecords | presencia60/js/storage.js:52-60 | for a date's key, the month's records hold the store's record when the date is in the month and nothing otherwise |
| Storage.StatsOf | presencia60/js/storage.js:62-71 | totalRegistered = office + remote, and the office, remote, license and other-type counts add up to the month's records |
| Storage.KindsPartition | presencia60/js/storage.js:65-69 | each record falls under exactly one type, so the four groups split the month |
| Storage.CountMonth | presencia60/js/storage.js:64-70 | the counting loop returns `StatsOf` the month's records |
| Storage.StatsAfterFiling | presencia60/js/storage.js:34-40 | filing a record changes the counts by that record alone |
| Storage.LabelOfFiledLicense | presencia60/js/storage.js:77 | a filed license lists its category, or 'Otro' when none was given |
| Storage.MonthLicenses | presencia60/js/storage.js:73-79 | one entry per license record, as many as licenseDays, each with its category or 'Otro', by strictly ascending date |
| Storage.LicenseLabel | presencia60/js/storage.js:77 | the label is never empty, and any label other than 'Otro' is the record's own category |
| Storage.RecordStore.Load | presencia60/js/storage.js:8-16 | the store holds the loaded document |
| Storage.RecordStore.GetRecord | presencia60/js/storage.js:30-32 | the date's record, or none when it has none |
| Storage.RecordStore.SetRecord | presencia60/js/storage.js:34-40 | the date now maps to the new record, nothing else changes, and it returns true |
| Storage.RecordStore.DeleteRecord | presencia60/js/storage.js:42-50 | returns whether the date had a record, which is removed; nothing else changes |
| Storage.RecordStore.GetMonthRecords | presencia60/js/storage.js:52-60 | the loop over the records returns exactly `MonthRecords` |
| Storage.RecordStore.GetMonthStats | presencia60/js/storage.js:62-71 | the counts of the month's records |
| Storage.RecordStore.GetMonthLicenses | presencia60/js/storage.js:73-79 | the month's license records, each once, with category or 'Otro', by ascending date |
| AppController.Checkin | js/app.js:51-69 | a weekend changes nothing; otherwise today ends with a record iff it did not already hold this type, that record is the new one, and other days are unchanged |
| AppController.CheckinTwiceUndoes | js/app.js:59-64 | on an empty working day, pressing the same button twice leaves the records as they were |
| AppController.CheckinSwitchesType | js/app.js:59-64 | pressing 'office' then 'remote' leaves a remote record for today |
| AppController.LicenseSubmitted | js/app.js:183-196 | no date or a weekend date changes nothing; otherwise a new license record with the chosen category and the current time is filed under the typed date and nothing else changes |
| AppController.NoWeekendRecord | js/app.js:53-56 | an empty store holds no record under a weekend date's key, so with the two lemmas below it is an invariant of the model |
| AppController.CheckinKeepsWeekendsFree | js/app.js:53-56 | when no weekend date holds a record, a check-in leaves it so |
| AppController.LicenseSubmittedKeepsWeekendsFree | js/app.js:188-190 | when no weekend date holds a record, a submitted license leaves it so |
| AppController.SubmittedLicenseIsListed | js/app.js:183-200 | a license submitted for a working day appears in that month's license list with its category or 'Otro' |
| AppController.NavigatedMonth | js/app.js:174-177 | the month stays in 0..11, and a step of at most one month moves 12·year + month by exactly the step |
| AppController.NavigationRoundTrip | js/app.js:174-177 | 'next' then 'previous', or the reverse, returns to the same month |
| AppController.AlertShown | js/app.js:98-120 | `updateAlert` shows the level `getAlertStatus` computes |
| AppController.BlanksBeforeWeekday | js/app.js:142-143 | startDay is 0..6, one before the weekday and 6 for a Sunday: (weekday + 6) mod 7 |
| AppController.DayUnderItsWeekday | js/app.js:140-151 | after startDay blanks, each day sits in the Monday-first column of its weekday |
| AppController.CellShowsStoredRecord | js/app.js:157-166 | a working day's cell shows the type of the record the store holds for that day |
| AppController.CellOf | js/app.js:152-169 | a cell carries its day number, is a weekend exactly when the date is, is today exactly when the date is today, and shows a type exactly when a working day holds an office, remote or license record of that type |
| AppController.DayCell | js/app.js:152-169 | one day's cell: its number, weekend flag, record type on a working day, and whether it is today |
| AppController.DashboardOf | js/app.js:71-86 | effective = total − licenses; percentage 0 with nothing registered, else office/registered, within 0..1; days left + registered + licenses = total; the projection, suggestion, progress colour and alert come from those figures |
| AppController.ProgressAgreesWithAlert | js/app.js:79-110 | unless the days left are negative, the progress circle is green exactly when the alert is a success |
| AppController.ProgressAndAlertDisagreeWhenOverRegistered | js/app.js:79-110 | with more days registered than the month has, the days left are −1, the circle is green and the alert is a danger, so the bound above is needed |
| AppController.App.constructor | js/app.js:5-7 | the application opens on today's month |
| AppController.App.NavigateMonth | js/app.js:174-181 | the month on screen becomes `NavigatedMonth` of the old one |
| AppController.App.HandleCheckin | js/app.js:51-69 | the store's records become `Checkin` of the old ones; settings unchanged |
| AppController.App.HandleLicenseSubmit | js/app.js:183-196 | the store's records become `LicenseSubmitted` of the old ones; settings unchanged |
| AppController.App.DeleteLicense | js/app.js:216-222 | the date's record is removed; nothing else changes |
| AppController.App.RenderDashboard | js/app.js:71-86 | the dashboard figures of the month on screen: `DashboardOf` its counts and its working days |
| AppController.App.RenderCalendar | js/app.js:128-172 | startDay is the Monday-first blank count for day 1, and there is one cell per day of the month, each `CellOf` that day and the month's records |

## Left out

- Drawing is not modelled: elements, texts, icons, toasts, the progress circle's geometry and rounded percentage, `updateSuggestion`, `renderLicenses`' HTML, `renderCurrentDate`, `formatDisplayDate`, `init` and the event wiring.
- `checkTodayStatus` and `getTodayRecord` only set button states or read today's record through the clock; `HandleCheckin` covers the store side.
- `isToday` reads the clock; the grid's today test is modelled as equality with the `today` parameter.
- Browser storage and JSON are not modelled. Every source call reads the whole document; only `setRecord` and a `deleteRecord` that finds its record write it back (`saveData`), and the queries never write. Here the document is read once (`RecordStore.Load`) and then lives in the store's fields. A document that parses to an unexpected shape is not modelled.
- Storage.RecordStore.Load: while nothing is stored, every `getData` builds a fresh default document with a new random user token and creation time, so the saved document carries those of the first write. The model fixes them once, when the store is loaded.
- Clock and randomness are parameters: `today`, the ISO timestamp `now`, and the base-36 user token.
- Two tabs writing the same document at once are not modelled.
- DateKeys.DateKey: `formatDate` writes the UTC date of `toISOString()` (js/calculations.js:170-172), and the model writes the local calendar day instead; the two agree only at UTC. A check-in takes its key from the instant of the press (js/app.js:52,57). West of UTC an evening press gets the next day's key: after 21:00 on a Friday in UTC−3 the record is filed under Saturday. East of UTC a press just after midnight gets the previous day's key: Monday 00:30 in UTC+1 is filed under Sunday. The grid keys each cell by the UTC date of that day's local midnight (js/app.js:152-153). West of UTC that is the day itself. East of UTC it is the day before, so there the whole grid is shifted by one day against its keys: in UTC+1 a Tuesday 10:00 check-in is filed under Tuesday and drawn on Wednesday's cell, a Friday record is looked up only by Saturday's weekend cell and is never drawn (js/app.js:157), and the Monday 00:30 record filed under Sunday is drawn on Monday's cell. West of UTC a record filed under Saturday falls on Saturday's weekend cell and is not drawn. `getMonthStats` counts every record of the month whatever its key. AppController.CheckinKeepsWeekendsFree and AppController.CellShowsStoredRecord hold of the model's local-day keys, not of the source's UTC keys.
- DateKeys.KeyInMonth: holds only for years 1000 to 9999. The prefix is `${year}` unpadded, while keys carry `toISOString`'s four-digit or signed six-digit year.
- DateKeys.ParseDateKey: a string that is not `YYYY-MM-DD` with a real day of the month gives no date. `isWeekend` of such an Invalid Date is false, so the license is filed. The day-overflow rollover some engines apply when parsing is not modelled.
- Floating point in general: `Math.ceil(n * 0.6)` is modelled exactly as ⌈3n/5⌉. The double nearest 0.6 lies just below 3/5, and for any realistic day count the product rounds to the same ceiling. Ratios are exact rationals, `Math.round` rounds halves up on exact values, and `projectedPercentage >= 0.60` on NaN is modelled as false through `Projection.NaN`.
- The date range of JavaScript's `Date` (±10^8 days) is not modelled; years are unbounded.
- AppController.NavigatedMonth: for steps of more than one month the single wrap is modelled as written, but no relation to month arithmetic is stated; the buttons only step by ±1.
- AppController.App.RenderCalendar: computes the blank count after walking the days, where the source computes it before; the two are independent. The month title is not modelled.
- String order: `localeCompare` is taken as code-unit order. For `YYYY-MM-DD` keys of equal length the two agree.
- `getMonthStats` walks the records in insertion order; the model walks them in any order, and the counts do not depend on it.
- `settings.targetPercentage` is stored but never read: every calculation uses the constant 0.60, as the source does.
- The `reason` texts of `suggestTomorrow` and the `neededDays` text of `updateAlert` are not modelled; only the suggestion tag and the alert level are.
