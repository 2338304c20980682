# Work-division rota: a Dafny model of its scheduling core

The work-division app is a household duty rota. Five members share five works: mopping, sweeping, buying vegetables, fetching water and taking out the garbage. Each member does one work per week, and every week each member moves on to the next work. The app shows one month at a time as a list of Sunday-to-Saturday weeks. It highlights the week that contains today and prints a month grid of who does what.

This project models the scheduling core of the `App` class in `work-division/script.js` and proves its properties:

- **Week list** (`getWeeksInMonth`): the weeks that cover a month.
- **Today's week** (`getCurrentWeekIndex`): the week containing today.
- **Rotation** (`getAbsoluteWeekDiff` and `getWork`): the week offset from a fixed reference Sunday, and the duty that offset picks for each member.
- **View state**: the month and week on view, and the actions that move them.

Files:

- `ecma_date.dfy` (`EcmaDate`): the part of the JavaScript `Date` the core uses, following section 21.4.1 of ECMA-262 (time values and dates). The model works in whole days:
  - Day 0 is 1 January 1970, and `WeekDay` makes Sunday 0.
  - `DayFromYear` is the standard's closed formula.
  - The Date constructor (`NewDate`) is proved equal to the standard's `MakeDay`. That includes its rule that years 0..99 mean 1900..1999.
  - `getDate`, `getMonth` and `getFullYear` are recovered from a day number by locating its month.
  - `setDate` is `SetDate`.
- `week_calendar.dfy` (`WeekCalendar`):
  - The loop of `getWeeksInMonth` is an imperative method, `GetWeeksInMonth`. It is proved equal to a recursive specification, `Weeks`.
  - The properties are proved about `Weeks`: Sunday alignment, numbering, coverage, disjointness, and what the `break` inside the loop does.
  - `findIndex`, as used by `getCurrentWeekIndex`, is the recursive function `FindWeek`.
- `rotation.dfy` (`Rotation`) covers:
  - the roster configuration;
  - JavaScript's truncating `%`;
  - the double remainder of `getWork`;
  - floored week offsets from 9 November 2025;
  - a proof that in every week the members share out the works with none doubled.
- `app_state.dfy` (`AppState`): the class `App` with the fields of `state` and its actions:
  - the constructor with `init`;
  - `changeWeek`;
  - `changeYear`;
  - the month selector's listener.

  Its invariant `Valid` says that `viewIndex` always names a week of the month on view.

The `break` inside the loop of `getWeeksInMonth` reads like a stop for weeks that start in a later month. For months 0..11 it never fires. The first week is always kept because of `num > 1`; it can start in the previous December, where `wStart.getMonth() > month && wStart.getFullYear() >= year` may hold (for year 51, month 0 the first week starts on Sunday 31 December 1950). Every later week starts inside the month, and for those the test fails (`BreakConditionInMonth`, `BreakFiresExactly`). The loop test `current <= lastDay` alone ends the list. The list is then the weeks from the Sunday on or before the first day up to the first week that ends on or after the last day (`CoveringWeeksAligned`). The break can only fire for a two-digit year together with a month from -22800 to -1. For those inputs it cuts the list to the first week, and the model does the same.

## Model

| member | source | states |
|---|---|---|
| EcmaDate.NewDate | work-division/script.js:104-105 | Definition of `new Date(y, m, d)` as a day number; characterised by `NewDateIsMakeDay` and `MonthBounds`. |
| EcmaDate.NewDateIsMakeDay | work-division/script.js:104-105 | `new Date(y, m, d)` is the day that MakeDay from ECMA-262 gives for the full year, month and date, months outside 0..11 included. The full year is 1900 + y for a year 0..99 and y otherwise. |
| EcmaDate.DayFromYearIsMonthStart | work-division/script.js:104 | The standard's closed formula for the first day of a year equals the month-by-month count from 1970, for years before and after 1970. |
| EcmaDate.MonthBounds | work-division/script.js:104-105 | `new Date(y, m, 1)` is the first day of the month, `new Date(y, m+1, 0)` the day before the next month starts, and a month has 28 to 31 days. |
| EcmaDate.MonthIndexOf | work-division/script.js:108 | The month found for a day starts on or before the day, and the next month starts after it. |
| EcmaDate.MonthIndexOfUnique | work-division/script.js:118 | Any month that brackets a day is the one found, so `getMonth`/`getFullYear` are well defined. |
| EcmaDate.DateFromDay | work-division/script.js:108 | `getDate()` is between 1 and the number of days of the day's month. |
| EcmaDate.YearFromDay | work-division/script.js:118 | Definition of `getFullYear()` on a day number; characterised by `YearFromDayBounds` and `DaysOfMonth`. |
| EcmaDate.MonthFromDay | work-division/script.js:118 | `getMonth()` is in 0..11; the definition is characterised further by `DaysOfMonth`. |
| EcmaDate.YearFromDayBounds | work-division/script.js:118 | The year `getFullYear()` reports contains the day. |
| EcmaDate.DaysOfMonth | work-division/script.js:118 | Every day of the month `new Date(y, m, …)` reports `getMonth()` = m mod 12 and `getFullYear()` = full year + m div 12. |
| EcmaDate.WeekDay | work-division/script.js:108 | `getDay()` is in 0..6 and is the day number moved to Sunday = 0. |
| EcmaDate.SundayOnOrBefore | work-division/script.js:108 | Stepping back `getDay()` days reaches a Sunday, and stepping by whole weeks keeps the day of the week. |
| EcmaDate.SetDate | work-division/script.js:108 | `setDate(n)` moves the day by n − `getDate()` days, whatever n is. |
| EcmaDate.AddDays | work-division/script.js:116 | `d.setDate(d.getDate() + n)` moves the Date exactly n days, across month and year ends. |
| EcmaDate.SetDateIsMakeDay | work-division/script.js:127 | `setDate(n)` is MakeDay on the day's own year and month with date n, as the standard defines it. |
| WeekCalendar.FirstSunday | work-division/script.js:107-108 | The first week starts on a Sunday 0 to 6 days before the first day of the month. |
| WeekCalendar.WeeksFromShape | work-division/script.js:113-129 | The weeks emitted from a start up to a last day are numbered consecutively, each 7 long and 7 after the previous, until a start passes the last day. |
| WeekCalendar.CoveringWeeksCount | work-division/script.js:102-131 | A month has 4 to 6 weeks, and the first starts at firstDay − getDay(firstDay). |
| WeekCalendar.CoveringWeeksAligned | work-division/script.js:113-129 | Ids run 1..n, every week starts on a Sunday and ends 6 days later, starts are 7 days apart, every week overlaps the month, and the last ends on or after the last day. |
| WeekCalendar.CoveringWeeksCover | work-division/script.js:113-129 | Every day of the month lies in a week, namely week (day − first Sunday) div 7. |
| WeekCalendar.CoveringWeeksDisjoint | work-division/script.js:114-116 | No day lies in two weeks. |
| WeekCalendar.BreakConditionInMonth | work-division/script.js:118 | For a week starting inside the month, the break test is the same for every week, and it holds exactly when BreakFires does. |
| WeekCalendar.BreakFiresExactly | work-division/script.js:118 | The break fires exactly for a year 0..99 together with a month −22800..−1, and never for a month 0..11. |
| WeekCalendar.Weeks | work-division/script.js:102-131 | Definition of the list `getWeeksInMonth` returns; characterised by `WeeksShape` and computed by `GetWeeksInMonth`. |
| WeekCalendar.WeeksShape | work-division/script.js:102-131 | The list is the covering weeks, or only the first week when the break fires; it is never empty and has at most 6 weeks. |
| WeekCalendar.GetWeeksInMonth | work-division/script.js:102-131 | The loop, with its `num === 1` disjunct and its break, returns exactly `Weeks(year, month)`, which is the covering weeks whenever the break does not fire. |
| WeekCalendar.NextMonthContinues | work-division/script.js:104-105 | The next month's first week is this month's last week or the week right after it, so no week is skipped between months. |
| WeekCalendar.DayInOwnMonth | work-division/script.js:60-63 | A day lies in the month named by its own `getFullYear()`/`getMonth()`, with no break, unless that year is 0..99. |
| WeekCalendar.FindWeek | work-division/script.js:144 | `findIndex` returns −1 exactly when no week contains the day; otherwise it returns the first week that contains it. |
| WeekCalendar.CurrentWeekIndex | work-division/script.js:141-146 | The index is always a valid week. It is the first week containing today when there is one, and 0 otherwise. |
| WeekCalendar.TodayLocated | work-division/script.js:141-146 | For a day of the month the index is (day − first Sunday) div 7, that week contains the day, and no other week does. |
| Rotation.RefDayIsSunday | work-division/script.js:150 | The reference day number 20401 is `new Date(2025, 10, 9)`, and it is a Sunday. |
| Rotation.JsRem | work-division/script.js:161 | JavaScript's `%` has the sign of the dividend, is smaller than the divisor in magnitude, and has the dividend's residue. |
| Rotation.SingleRemainderGoesNegative | work-division/script.js:161 | A single `%` gives −1 for offset 2 in week −3, which is why the second remainder is needed. |
| Rotation.WorkIndex | work-division/script.js:161 | The double remainder is always in 0..N−1 and is the mathematical residue of offset + week, for negative weeks too. |
| Rotation.ReferenceWeekExamples | work-division/script.js:161 | At the reference week, and one full cycle later, offset 0 gets work 0. |
| Rotation.WeekBeforeReferenceExample | work-division/script.js:161 | In the week before the reference, offset 2 gets work 1. |
| Rotation.WorkIndexPeriodic | work-division/script.js:161 | Shifting the week by any multiple of N, negative included, gives the same duty. |
| Rotation.NextWeekNextDuty | work-division/script.js:161 | A week later every member gets the next work, wrapping from the last to the first. |
| Rotation.WeekOffset | work-division/script.js:156 | The floored week count q satisfies 7q ≤ start − reference < 7q + 7. |
| Rotation.WeekOffsetShift | work-division/script.js:156 | Starts 7k days apart are exactly k weeks apart, before the reference too. |
| Rotation.AbsoluteWeekDiff | work-division/script.js:148-157 | 0 for an index that names no week. Otherwise the week starts exactly 7·r days after the reference Sunday. |
| Rotation.WeeksAligned | work-division/script.js:108 | Every week of the list starts on a Sunday, with or without the break. |
| Rotation.ReferenceWeekOffsets | work-division/script.js:148-157 | November 2025 has 6 weeks, its third starts on the reference day, and weeks 2, 3 and 4 have offsets −1, 0 and 1. |
| Rotation.ConsecutiveWeeks | work-division/script.js:148-157 | Consecutive weeks of a month have consecutive absolute offsets. |
| Rotation.Duty | work-division/script.js:161 | The duty for an offset and an absolute week is one of the works: the one at the mathematical residue of their sum. |
| Rotation.GetWork | work-division/script.js:159-163 | The duty is one of the configured works. For a week of the month it is the work at the residue of the member's offset plus the week's whole-week distance from the reference Sunday. For an index that names no week it is the member's duty in the reference week. |
| Rotation.SharedWeekSameDuty | work-division/script.js:148-157 | A week shown in two month views gets the same duty for every member in both. |
| Rotation.DistinctOffsetsShareOutWorks | work-division/script.js:159-163 | When offsets differ pairwise mod N and members equal works, the duties of any week rearrange the works, so every work is done by exactly one member. |
| Rotation.CollidingOffsetsShareADuty | work-division/script.js:159-163 | The converse: members whose offsets agree mod N do the same duty every week, and with distinct works two members share a duty exactly when their offsets agree mod N. |
| Rotation.RosterSharesOutWorks | work-division/script.js:3-13 | With the configured offsets 0..4 and five works, every week's duties, as shown in the grid, are the five works rearranged. |
| Rotation.GridColumnSharesOutWorks | work-division/script.js:374-382 | A grid column, `getWork` for each member in roster order before its translation through `CONFIG.translations`, holds each of the five works exactly once. |
| AppState.App.ViewWeeks | work-division/script.js:187 | The month on view always has 1 to 6 weeks. |
| AppState.App.PrevDisabled | work-division/script.js:191 | Definition of the disabled state of the previous-week button; `ChangeWeek` states that −1 moves exactly when it is enabled. |
| AppState.App.NextDisabled | work-division/script.js:192 | Definition of the disabled state of the next-week button; `ChangeWeek` states that +1 moves exactly when it is enabled. |
| AppState.App.IsNow | work-division/script.js:195 | Definition of the "this week" test: today lies in the week on view. The constructor states that it holds on opening unless the year is 0..99. |
| AppState.App.constructor | work-division/script.js:57-71 | The app opens on the month of `now` at CurrentWeekIndex, in a valid state, and on the week containing `now` unless the year is 0..99. |
| AppState.App.ChangeWeek | work-division/script.js:172-179 | viewIndex moves by `dir` exactly when the target is a week of the month and otherwise stays. The state stays valid and nothing else changes. From a valid state, ±1 moves exactly when the matching button is enabled. |
| AppState.App.ChangeYear | work-division/script.js:166-170 | The year moves by `dir`, viewIndex resets to 0, the state stays valid, and today and month are unchanged. |
| AppState.App.SetMonth | work-division/script.js:89-94 | The month becomes the selected value, viewIndex resets to 0, the state stays valid, and today and year are unchanged. |

## Left out

- Rendering, the profile modal, toasts and the PDF export are left out: they are DOM and library output. The cells of the PDF grid come from `getWork`; the grid's columns are modelled before translation (`GridColumn`, `GridColumnSharesOutWorks`). The translation of each cell to English, the headers and the layout are not.
- `formatDateRange` and the week labels are left out: they are locale-dependent text.
- Daylight-saving time is left out: the model counts whole local days of 24 hours, as in a time zone without DST such as India Standard Time. `getAbsoluteWeekDiff` divides a millisecond difference by 86400000 and floors it twice. Where the time zone has DST, the week count comes out one less than the model's exactly when the UTC offset at the week's start is larger than at the reference Sunday, that is, the start is in summer time and 9 November 2025 is not. This happens before the reference too: in US Eastern time the week of 26 October 2025 gives −3 where the model gives −2. Where the reference Sunday is itself in summer time (the southern hemisphere), the difference is whole days or an hour more, and the floor gives the model's count. In a zone whose summer time begins at midnight, `new Date(y, m, d)` and `setDate` can give 01:00 instead of midnight, and that hour carries into the later weeks of `current`; `getCurrentWeekIndex` can then miss today when today is the Sunday a week starts on. The model, working in whole days, has neither effect.
- `Date` values outside the representable range (NaN time values) and fractional arguments are left out; the model uses unbounded integers.
- The wall clock is the parameter `now`. The constructor reads it three times (`date`, `year` and `month`); `now` stands for all three, so the model does not capture a midnight falling between the reads, which could make `date` disagree with `year` and `month`. `setHours(0, 0, 0, 0)` is folded into the choice of day number.
- The month listener's `parseInt` of a non-numeric value (NaN) is left out: the select only offers numeric values, and `SetMonth` takes an integer.
- Every `Date` object the source mutates is unshared: `start`, `current` and `wEnd` are first copied from another, and `state.date`, which `setHours` changes, is fresh from `new Date()`. So each is a value here and aliasing is not modelled.
- GetWork: requires a roster index (`0 <= memberIdx < |Members|`). For any other index `CONFIG.members[memberIdx].startOffset` throws a TypeError, which the model does not represent; every call site passes an index of the roster.
- `findIndex` is the library's loop, modelled as the recursive function `FindWeek`.
- `CONFIG.styles`, `translations` and `basinPattern` are left out: they are display data that the schedule does not use.
