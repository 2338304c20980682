/**
 * The month-to-weeks calendar of the roster (`getWeeksInMonth`,
 * `getCurrentWeekIndex`): a month is shown as the Sunday-to-Saturday weeks
 * that overlap it, numbered from 1.
 */
module WeekCalendar {
  import opened EcmaDate

  /** One entry of the week list: its number within the month (from 1), its
      first day (a Sunday) and its last day.  The display label is not modelled. */
  datatype Week = Week(id: int, start: int, end: int)

  /** Whether `day` falls in week `w`, both ends included. */
  predicate Contains(w: Week, day: int)
  {
    w.start <= day <= w.end
  }

  /** `new Date(year, month, 1)`. */
  function FirstDay(year: int, month: int): int
  {
    NewDate(year, month, 1)
  }

  /** `new Date(year, month + 1, 0)`: the last day of the month. */
  function LastDay(year: int, month: int): int
  {
    NewDate(year, month + 1, 0)
  }

  /** The Sunday on or before the first of the month. */
  function FirstSunday(year: int, month: int): (s: int)
    ensures WeekDay(s) == 0
    ensures FirstDay(year, month) - 6 <= s <= FirstDay(year, month)
  {
    var f := FirstDay(year, month);
    SundayOnOrBefore(f, 0);
    f - WeekDay(f)
  }

  /** Weeks starting at `start` and then every 7 days, as long as a week starts
      on or before `last`; the first one is numbered `id`. */
  function WeeksFrom(start: int, last: int, id: int): seq<Week>
    decreases last - start + 7
  {
    if start > last then []
    else [Week(id, start, start + 6)] + WeeksFrom(start + 7, last, id + 1)
  }

  /** The weeks from the Sunday on or before the first day of the month, for as
      long as a week starts on or before the last day. */
  function CoveringWeeks(year: int, month: int): seq<Week>
  {
    WeeksFrom(FirstSunday(year, month), LastDay(year, month), 1)
  }

  /** The `break` condition of the loop in `getWeeksInMonth`, evaluated for a
      week that starts inside the month: such a day reports the month
      `month % 12` and the year `MakeFullYear(year) + month / 12`. */
  predicate BreakFires(year: int, month: int)
  {
    month % 12 > month && MakeFullYear(year) + month / 12 >= year
  }

  /** What `getWeeksInMonth(year, month)` returns. */
  function Weeks(year: int, month: int): seq<Week>
  {
    var all := CoveringWeeks(year, month);
    CoveringWeeksCount(year, month);
    if BreakFires(year, month) then all[..1] else all
  }

  /** The shape of WeeksFrom: how many weeks, and each one's number and days. */
  lemma {:induction false} WeeksFromShape(start: int, last: int, id: int)
    ensures |WeeksFrom(start, last, id)| == if start > last then 0 else (last - start) / 7 + 1
    ensures forall i :: 0 <= i < |WeeksFrom(start, last, id)| ==>
      WeeksFrom(start, last, id)[i] == Week(id + i, start + 7 * i, start + 7 * i + 6)
    decreases last - start + 7
  {
    if start <= last {
      var rest := WeeksFrom(start + 7, last, id + 1);
      WeeksFromShape(start + 7, last, id + 1);
      forall i | 0 < i < |WeeksFrom(start, last, id)|
        ensures WeeksFrom(start, last, id)[i] == Week(id + i, start + 7 * i, start + 7 * i + 6)
      {
        assert WeeksFrom(start, last, id)[i] == rest[i - 1];
      }
    }
  }

  /** The weeks from a Sunday `s` on or before a first day `f`, up to a last day
      `l` 27 to 30 days later.  Stated over plain day numbers, so that the
      calendar arithmetic behind `f` and `l` stays out of the argument. */
  lemma SundayWeeks(s: int, f: int, l: int)
    requires WeekDay(s) == 0 && f - 6 <= s <= f && f + 27 <= l <= f + 30
    ensures var ws := WeeksFrom(s, l, 1);
      && 4 <= |ws| <= 6
      && ws[0].start == s
      && ws[|ws| - 1].end >= l
      && forall i :: 0 <= i < |ws| ==>
        && ws[i].id == i + 1
        && WeekDay(ws[i].start) == 0
        && ws[i].end == ws[i].start + 6
        && ws[i].start == s + 7 * i
        && ws[i].start <= l
        && f <= ws[i].end
  {
    WeeksFromShape(s, l, 1);
    var ws := WeeksFrom(s, l, 1);
    forall i | 0 <= i < |ws|
      ensures WeekDay(ws[i].start) == 0 && ws[i].start <= l
    {
      SundayOnOrBefore(s, i);
      assert 7 * i <= 7 * ((l - s) / 7) <= l - s;
    }
  }

  /** Under the same conditions, day `d` from `f` to `l` lies in week (d - s) / 7. */
  lemma SundayWeeksCover(s: int, f: int, l: int, d: int)
    requires WeekDay(s) == 0 && f - 6 <= s <= f && f + 27 <= l <= f + 30
    requires f <= d <= l
    ensures 0 <= (d - s) / 7 < |WeeksFrom(s, l, 1)|
    ensures Contains(WeeksFrom(s, l, 1)[(d - s) / 7], d)
  {
    WeeksFromShape(s, l, 1);
    var i := (d - s) / 7;
    assert 7 * i <= d - s < 7 * i + 7;
    assert i <= (l - s) / 7;
  }

  /** The facts about the first and last day of a month that the weeks rest on. */
  lemma MonthFrame(year: int, month: int)
    ensures var s, f, l := FirstSunday(year, month), FirstDay(year, month), LastDay(year, month);
      WeekDay(s) == 0 && f - 6 <= s <= f && f + 27 <= l <= f + 30
  {
    MonthBounds(year, month);
  }

  /** A month is shown as four to six weeks, the first starting on the Sunday
      on or before the first of the month. */
  lemma CoveringWeeksCount(year: int, month: int)
    ensures 4 <= |CoveringWeeks(year, month)| <= 6
    ensures CoveringWeeks(year, month)[0].start == FirstDay(year, month) - WeekDay(FirstDay(year, month))
  {
    MonthFrame(year, month);
    SundayWeeks(FirstSunday(year, month), FirstDay(year, month), LastDay(year, month));
  }

  /** Every week is numbered by its position from 1, starts on a Sunday, ends six
      days later, follows the first one by a whole number of weeks, and overlaps
      the month: it starts on or before the last day and ends on or after the
      first; the last week ends on or after the last day of the month. */
  lemma CoveringWeeksAligned(year: int, month: int)
    ensures var ws := CoveringWeeks(year, month);
      && ws[|ws| - 1].end >= LastDay(year, month)
      && forall i :: 0 <= i < |ws| ==>
        && ws[i].id == i + 1
        && WeekDay(ws[i].start) == 0
        && ws[i].end == ws[i].start + 6
        && ws[i].start == ws[0].start + 7 * i
        && ws[i].start <= LastDay(year, month)
        && FirstDay(year, month) <= ws[i].end
  {
    MonthFrame(year, month);
    SundayWeeks(FirstSunday(year, month), FirstDay(year, month), LastDay(year, month));
  }

  /** The weeks cover the month with no gap: every day of the month lies in the
      week (d - first Sunday) / 7. */
  lemma CoveringWeeksCover(year: int, month: int, d: int)
    requires FirstDay(year, month) <= d <= LastDay(year, month)
    ensures var ws := CoveringWeeks(year, month);
      && 0 <= (d - FirstSunday(year, month)) / 7 < |ws|
      && Contains(ws[(d - FirstSunday(year, month)) / 7], d)
  {
    MonthFrame(year, month);
    SundayWeeksCover(FirstSunday(year, month), FirstDay(year, month), LastDay(year, month), d);
  }

  /** Weeks are disjoint, so a day lies in at most one of them. */
  lemma CoveringWeeksDisjoint(year: int, month: int, d: int, i: int, j: int)
    requires var ws := CoveringWeeks(year, month);
      0 <= i < |ws| && 0 <= j < |ws| && Contains(ws[i], d) && Contains(ws[j], d)
    ensures i == j
  {
    CoveringWeeksAligned(year, month);
  }

  /** The `break` inside the loop of `getWeeksInMonth` fires exactly for a
      negative month from -22800 on together with a two-digit year, for which
      the Date constructor substitutes a year of the 1900s; it never fires for
      a month 0..11. */
  lemma BreakFiresExactly(year: int, month: int)
    ensures BreakFires(year, month) <==> 0 <= year <= 99 && -22800 <= month < 0
    ensures 0 <= month < 12 ==> !BreakFires(year, month)
  {
    if month < 0 {
      assert month % 12 > month;
      assert month / 12 >= -1900 <==> month >= -22800;
    }
  }

  /** For a week starting inside the month, the `break` condition is BreakFires. */
  lemma BreakConditionInMonth(year: int, month: int, d: int)
    requires FirstDay(year, month) <= d <= LastDay(year, month)
    ensures (MonthFromDay(d) > month && YearFromDay(d) >= year) == BreakFires(year, month)
  {
    DaysOfMonth(year, month, d);
  }

  /** Weeks of a month are the covering weeks, except that when the break
      fires only the first week is kept. */
  lemma WeeksShape(year: int, month: int)
    ensures !BreakFires(year, month) ==> Weeks(year, month) == CoveringWeeks(year, month)
    ensures BreakFires(year, month) ==> Weeks(year, month) == [CoveringWeeks(year, month)[0]]
    ensures 1 <= |Weeks(year, month)| <= 6
    ensures Weeks(year, month)[0].start == FirstSunday(year, month)
  {
    CoveringWeeksCount(year, month);
  }

  /** One turn of the loop: emitting the week from `wStart` to `wEnd` moves it
      from the weeks still to come to the weeks collected. */
  lemma WeeksStep(weeks: seq<Week>, wStart: int, wEnd: int, next: int, last: int,
                  num: int, nextNum: int, all: seq<Week>)
    requires weeks + WeeksFrom(wStart, last, num) == all
    requires wStart <= last && wEnd == wStart + 6 && next == wStart + 7 && nextNum == num + 1
    ensures (weeks + [Week(num, wStart, wEnd)]) + WeeksFrom(next, last, nextNum) == all
  {
    var w, rest := Week(num, wStart, wEnd), WeeksFrom(next, last, nextNum);
    assert WeeksFrom(wStart, last, num) == [w] + rest;
    assert (weeks + [w]) + rest == weeks + ([w] + rest);
  }

  /** The weeks collected so far are a prefix of all the weeks, and all of them
      once `current` has passed the last day. */
  lemma WeeksCollected(weeks: seq<Week>, current: int, last: int, num: int, all: seq<Week>)
    requires weeks + WeeksFrom(current, last, num) == all
    ensures weeks == all[..|weeks|]
    ensures current > last ==> weeks == all
  {
    assert all[..|weeks|] == weeks;
  }

  /** `getWeeksInMonth`: the loop walks a Date from the Sunday on or before the
      first of the month, seven days at a time, and collects the weeks. */
  method GetWeeksInMonth(year: int, month: int) returns (weeks: seq<Week>)
    ensures weeks == Weeks(year, month)
    ensures !BreakFires(year, month) ==> weeks == CoveringWeeks(year, month)
  {
    var firstDay := NewDate(year, month, 1);
    var lastDay := NewDate(year, month + 1, 0);
    var start := AddDays(firstDay, -WeekDay(firstDay));
    var current := start;
    var num := 1;
    weeks := [];
    MonthBounds(year, month);
    CoveringWeeksCount(year, month);
    assert start == FirstSunday(year, month);
    assert lastDay == LastDay(year, month);
    ghost var all := WeeksFrom(start, lastDay, 1);
    assert all == CoveringWeeks(year, month);
    while current <= lastDay || num == 1
      invariant num >= 1 && |weeks| == num - 1
      invariant current == start + 7 * (num - 1)
      invariant weeks + WeeksFrom(current, lastDay, num) == all
      invariant BreakFires(year, month) ==> num <= 2
      decreases lastDay + 7 - current
    {
      var wStart := current;
      var wEnd := AddDays(current, 6);
      if num > 1 {
        BreakConditionInMonth(year, month, wStart);
      }
      if MonthFromDay(wStart) > month && num > 1 && YearFromDay(wStart) >= year {
        WeeksCollected(weeks, current, lastDay, num, all);
        break;
      }
      ghost var before, id := weeks, num;
      weeks := weeks + [Week(num, wStart, wEnd)];
      current := AddDays(current, 7);
      num := num + 1;
      WeeksStep(before, wStart, wEnd, current, lastDay, id, num, all);
    }
    WeeksCollected(weeks, current, lastDay, num, all);
  }

  /** `Array.prototype.findIndex` over the weeks: the first week holding `today`,
      or -1 when none does. */
  function FindWeek(weeks: seq<Week>, today: int): (r: int)
    ensures -1 <= r < |weeks|
    ensures r == -1 <==> forall i :: 0 <= i < |weeks| ==> !Contains(weeks[i], today)
    ensures r != -1 ==> Contains(weeks[r], today)
    ensures forall i :: 0 <= i < r ==> !Contains(weeks[i], today)
  {
    if |weeks| == 0 then -1
    else if Contains(weeks[0], today) then 0
    else
      var r := FindWeek(weeks[1..], today);
      if r == -1 then -1 else r + 1
  }

  /** `getCurrentWeekIndex`: the index of the first week of the month holding
      `today`, or 0 when no week of the month holds it. */
  function CurrentWeekIndex(year: int, month: int, today: int): (r: int)
    ensures 0 <= r < |Weeks(year, month)|
    ensures (exists i :: 0 <= i < |Weeks(year, month)| && Contains(Weeks(year, month)[i], today)) ==>
      && Contains(Weeks(year, month)[r], today)
      && forall i :: 0 <= i < r ==> !Contains(Weeks(year, month)[i], today)
    ensures (forall i :: 0 <= i < |Weeks(year, month)| ==> !Contains(Weeks(year, month)[i], today)) ==> r == 0
  {
    WeeksShape(year, month);
    var idx := FindWeek(Weeks(year, month), today);
    if idx == -1 then 0 else idx
  }

  /** A day of the month is located in the one week that holds it, the week
      (today - first Sunday) / 7. */
  lemma TodayLocated(year: int, month: int, today: int)
    requires !BreakFires(year, month)
    requires FirstDay(year, month) <= today <= LastDay(year, month)
    ensures var r := CurrentWeekIndex(year, month, today);
      && Contains(Weeks(year, month)[r], today)
      && r == (today - FirstSunday(year, month)) / 7
      && forall i :: 0 <= i < |Weeks(year, month)| && Contains(Weeks(year, month)[i], today) ==> i == r
  {
    WeeksShape(year, month);
    CoveringWeeksCover(year, month, today);
    var r := CurrentWeekIndex(year, month, today);
    var k := (today - FirstSunday(year, month)) / 7;
    CoveringWeeksDisjoint(year, month, today, r, k);
    forall i | 0 <= i < |Weeks(year, month)| && Contains(Weeks(year, month)[i], today)
      ensures i == r
    {
      CoveringWeeksDisjoint(year, month, today, i, r);
    }
  }

  /** Over plain day numbers: the last Sunday-aligned week from `s` up to `l`
      starts where the Sunday on or before `l + 1` does, or a week earlier. */
  lemma LastWeekMeetsNext(s: int, l: int)
    requires WeekDay(s) == 0 && s <= l
    ensures var last, next := s + 7 * ((l - s) / 7), l + 1 - WeekDay(l + 1);
      next == last || next == last + 7
  {
    SundayOnOrBefore(s, (l - s) / 7);
  }

  /** The week list of one month continues into the next without gap or overlap
      of days: the next month's first week is the same week as this month's
      last one, or the week right after it. */
  lemma NextMonthContinues(year: int, month: int)
    ensures var a, b := CoveringWeeks(year, month), CoveringWeeks(year, month + 1);
      b[0].start == a[|a| - 1].start || b[0].start == a[|a| - 1].start + 7
  {
    var s, l := FirstSunday(year, month), LastDay(year, month);
    MonthBounds(year, month);
    CoveringWeeksCount(year, month);
    CoveringWeeksCount(year, month + 1);
    WeeksFromShape(s, l, 1);
    LastWeekMeetsNext(s, l);
  }

  /** The day `d` lies in the month named by its own `getFullYear()` and
      `getMonth()`, unless that year is 0..99, which `new Date` reads as 1900..1999. */
  lemma DayInOwnMonth(d: int)
    requires !(0 <= YearFromDay(d) <= 99)
    ensures FirstDay(YearFromDay(d), MonthFromDay(d)) <= d <= LastDay(YearFromDay(d), MonthFromDay(d))
    ensures !BreakFires(YearFromDay(d), MonthFromDay(d))
  {
    var y, m := YearFromDay(d), MonthFromDay(d);
    var k := MonthIndexOf(d);
    assert MonthIndex(y, m) == k;
    MonthBounds(y, m);
    BreakFiresExactly(y, m);
  }
}
