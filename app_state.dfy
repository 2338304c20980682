/**
 * The state of the `App` object: the day it was opened, the month on view and
 * the index of the week on view within that month, with the actions that
 * change them.
 */
module AppState {
  import opened EcmaDate
  import opened WeekCalendar

  class App {
    /** `state.date` after `setHours(0, 0, 0, 0)`: the local day the app was opened. */
    var today: int
    /** `state.year`. */
    var year: int
    /** `state.month`, the month index as `Date` understands it. */
    var month: int
    /** `state.viewIndex`: the week of the month on view. */
    var viewIndex: int

    /** The weeks of the month on view. */
    function ViewWeeks(): (ws: seq<Week>)
      reads this
      ensures 1 <= |ws| <= 6
    {
      WeeksShape(year, month);
      Weeks(year, month)
    }

    /** `render` reads `weeks[viewIndex]`, so the index always names a week. */
    ghost predicate Valid()
      reads this
    {
      0 <= viewIndex < |ViewWeeks()|
    }

    /** The previous-week button is disabled. */
    predicate PrevDisabled()
      reads this
    {
      viewIndex == 0
    }

    /** The next-week button is disabled. */
    predicate NextDisabled()
      reads this
    {
      viewIndex >= |ViewWeeks()| - 1
    }

    /** The week on view contains the day the app was opened (the "NOW" badge). */
    predicate IsNow()
      reads this
      requires Valid()
    {
      Contains(ViewWeeks()[viewIndex], today)
    }

    /** Opens the app on day `now` (the wall clock is a parameter): the month of
        `now` is on view, at the first week containing it. */
    constructor(now: int)
      ensures Valid()
      ensures today == now && year == YearFromDay(now) && month == MonthFromDay(now)
      ensures viewIndex == CurrentWeekIndex(year, month, today)
      ensures !(0 <= year <= 99) ==> IsNow()
    {
      today := now;
      year := YearFromDay(now);
      month := MonthFromDay(now);
      viewIndex := 0;
      new;
      viewIndex := CurrentWeekIndex(year, month, today);
      if !(0 <= year <= 99) {
        DayInOwnMonth(now);
        TodayLocated(year, month, today);
      }
    }

    /** `changeWeek(dir)`: moves the view by `dir` weeks when the target is a
        week of the month, and otherwise leaves everything as it was. */
    method ChangeWeek(dir: int)
      requires Valid()
      modifies this
      ensures Valid()
      ensures today == old(today) && year == old(year) && month == old(month)
      ensures 0 <= old(viewIndex) + dir < |ViewWeeks()| ==> viewIndex == old(viewIndex) + dir
      ensures !(0 <= old(viewIndex) + dir < |ViewWeeks()|) ==> viewIndex == old(viewIndex)
      ensures dir == -1 ==> (viewIndex != old(viewIndex) <==> !old(PrevDisabled()))
      ensures dir == 1 ==> (viewIndex != old(viewIndex) <==> !old(NextDisabled()))
    {
      var weeks := GetWeeksInMonth(year, month);
      var next := viewIndex + dir;
      if next >= 0 && next < |weeks| {
        viewIndex := next;
      }
    }

    /** `changeYear(dir)`: the same month `dir` years on, from its first week. */
    method ChangeYear(dir: int)
      modifies this
      ensures Valid()
      ensures year == old(year) + dir && viewIndex == 0
      ensures today == old(today) && month == old(month)
    {
      year := year + dir;
      viewIndex := 0;
    }

    /** The month selector's change listener: month `m` of the same year, from
        its first week. */
    method SetMonth(m: int)
      modifies this
      ensures Valid()
      ensures month == m && viewIndex == 0
      ensures today == old(today) && year == old(year)
    {
      month := m;
      viewIndex := 0;
    }
  }
}
