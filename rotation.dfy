/**
 * The duty rotation (`getAbsoluteWeekDiff`, `getWork` and the roster
 * configuration): every week each member moves one duty further along the
 * list of works, starting from a fixed per-member offset at the reference week.
 */
module Rotation {
  import opened EcmaDate
  import opened WeekCalendar

  /** A member of the roster with their fixed place in the rotation. */
  datatype Member = Member(name: string, startOffset: int)

  /** `CONFIG.members`. */
  const Members: seq<Member> := [
    Member("PREM MANDAL", 0),
    Member("KESHAV KUMAR", 1),
    Member("SUMIT KUMAR", 2),
    Member("SANJIT KUMAR", 3),
    Member("UTTAM MANDAL", 4)
  ]

  /** `CONFIG.works`, in rotation order: mopping, sweeping, vegetables, water, garbage. */
  const Works: seq<string> := [
    "पोछा लगाना", "झाड़ू लगाना", "सब्जी लाना", "पानी लाना", "कचरा फेंकना"
  ]

  /** The reference Sunday `ref` of `getAbsoluteWeekDiff`, 9 November 2025, as a day number. */
  const RefDay: int := 20401

  /** The reference day is `new Date(2025, 10, 9)`, and it is a Sunday. */
  lemma RefDayIsSunday()
    ensures RefDay == NewDate(2025, 10, 9)
    ensures WeekDay(RefDay) == 0
  {
    DayFromYearIsMonthStart(2025);
    MonthStartInYear(2025, 10);
    assert DayFromYear(2025) == 20089;
    assert DaysBeforeMonth(10, false) == 304;
  }

  // ---------------------------------------------------------------------
  // Remainders

  /** Adding the same number to two integers keeps their remainders equal,
      and only integers with equal remainders stay equal. */
  lemma ModShift(x: int, y: int, a: int, n: int)
    requires n > 0
    ensures (x + a) % n == (y + a) % n <==> x % n == y % n
  {
    var rx, ry := x % n, y % n;
    assert x + a == (rx + a) + (x / n) * n;
    assert y + a == (ry + a) + (y / n) * n;
    ModAddMultiple(rx + a, x / n, n);
    ModAddMultiple(ry + a, y / n, n);
    var qx, qy := (rx + a) / n, (ry + a) / n;
    if (rx + a) % n == (ry + a) % n {
      assert rx - ry == (qx - qy) * n;
      MulAtLeast(qx - qy, n);
    }
  }

  /** JavaScript's `%` on integers: the remainder of the division truncated
      toward zero.  It has the sign of the dividend and the same residue
      modulo `n` as the dividend. */
  function JsRem(a: int, n: int): (r: int)
    requires n > 0
    ensures a >= 0 ==> 0 <= r < n
    ensures a < 0 ==> -n < r <= 0
    ensures r % n == a % n
  {
    if a >= 0 then a % n
    else
      var b := -a;
      assert a == -(b % n) + (-(b / n)) * n;
      ModAddMultiple(-(b % n), -(b / n), n);
      -(b % n)
  }

  /** The duty index `workIdx` of `getWork`: `((startOffset + absWeek) % N + N) % N` with
      JavaScript's `%`.  It is the mathematical residue of startOffset + absWeek,
      in 0..N-1 whatever the signs. */
  function WorkIndex(startOffset: int, absWeek: int, n: int): (r: int)
    requires n > 0
    ensures 0 <= r < n
    ensures r == (startOffset + absWeek) % n
  {
    var inner := JsRem(startOffset + absWeek, n);
    ModAddMultiple(inner, 1, n);
    JsRem(inner + n, n)
  }

  /** The single `%` is not enough: for a negative sum it yields a negative index. */
  lemma SingleRemainderGoesNegative()
    ensures JsRem(2 + -3, 5) == -1
  {
  }

  /** At the reference week the first member does the first duty, and again
      one full cycle of five weeks later. */
  lemma ReferenceWeekExamples()
    ensures WorkIndex(0, 0, 5) == 0
    ensures WorkIndex(0, 5, 5) == 0
  {
  }

  /** The week before the reference week the third member does the second duty. */
  lemma WeekBeforeReferenceExample()
    ensures WorkIndex(2, -1, 5) == 1
  {
  }

  /** Shifting the absolute week by any multiple of N gives the same duty. */
  lemma WorkIndexPeriodic(startOffset: int, absWeek: int, k: int, n: int)
    requires n > 0
    ensures WorkIndex(startOffset, absWeek + k * n, n) == WorkIndex(startOffset, absWeek, n)
  {
    assert startOffset + (absWeek + k * n) == (startOffset + absWeek) + k * n;
    ModAddMultiple(startOffset + absWeek, k, n);
  }

  /** One week later every member does the next duty of the list, wrapping
      from the last back to the first. */
  lemma NextWeekNextDuty(startOffset: int, absWeek: int, n: int)
    requires n > 0
    ensures WorkIndex(startOffset, absWeek + 1, n) == (WorkIndex(startOffset, absWeek, n) + 1) % n
  {
    var x := startOffset + absWeek;
    assert x == x % n + (x / n) * n;
    ModAddMultiple(x % n + 1, x / n, n);
  }

  // ---------------------------------------------------------------------
  // Absolute week offsets

  /** `Math.floor(Math.floor(days) / 7)`: whole weeks from the reference Sunday
      to `start`, rounded down. */
  function WeekOffset(start: int): (r: int)
    ensures 7 * r <= start - RefDay < 7 * r + 7
  {
    (start - RefDay) / 7
  }

  /** Starts 7k days apart are k weeks apart, on both sides of the reference. */
  lemma WeekOffsetShift(start: int, k: int)
    ensures WeekOffset(start + 7 * k) == WeekOffset(start) + k
  {
    var r := WeekOffset(start);
    var r' := WeekOffset(start + 7 * k);
    assert 7 * r' <= start + 7 * k - RefDay < 7 * r' + 7;
    assert 7 * (r + k) <= start + 7 * k - RefDay < 7 * (r + k) + 7;
  }

  /** `getAbsoluteWeekDiff(weekIdx)` for the month `month` of `year`: 0 for an
      index that names no week, otherwise the offset of the week's start. */
  function AbsoluteWeekDiff(year: int, month: int, weekIdx: int): (r: int)
    ensures !(0 <= weekIdx < |Weeks(year, month)|) ==> r == 0
    ensures 0 <= weekIdx < |Weeks(year, month)| ==>
      Weeks(year, month)[weekIdx].start == RefDay + 7 * r
  {
    var weeks := Weeks(year, month);
    if 0 <= weekIdx < |weeks| then
      WeeksAligned(year, month);
      SundayDifference(weeks[weekIdx].start, RefDay);
      WeekOffset(weeks[weekIdx].start)
    else 0
  }

  /** Every week `getWeeksInMonth` returns starts on a Sunday. */
  lemma WeeksAligned(year: int, month: int)
    ensures forall i :: 0 <= i < |Weeks(year, month)| ==> WeekDay(Weeks(year, month)[i].start) == 0
  {
    WeeksShape(year, month);
    CoveringWeeksAligned(year, month);
  }

  /** Two Sundays are a whole number of weeks apart. */
  lemma SundayDifference(a: int, b: int)
    requires WeekDay(a) == 0 && WeekDay(b) == 0
    ensures (a - b) % 7 == 0
  {
  }

  /** November 2025 runs from day 20393 to day 20422, and its first week
      starts on Sunday 26 October, day 20387. */
  lemma November2025()
    ensures FirstDay(2025, 10) == 20393 && LastDay(2025, 10) == 20422
    ensures FirstSunday(2025, 10) == 20387
  {
    var k := MonthIndex(2025, 10);
    assert k == 24310;
    RefDayIsSunday();
    assert MonthStart(k) == 20393;
    MonthLength(k);
    assert MonthLengthAt(k) == 30;
    assert LastDay(2025, 10) == MonthStart(k + 1) - 1;
    assert WeekDay(20393) == 6;
  }

  /** The reference week is week 0; the weeks before and after it are -1 and +1.
      In November 2025 the reference Sunday starts the third week. */
  lemma ReferenceWeekOffsets()
    ensures |Weeks(2025, 10)| == 6
    ensures Weeks(2025, 10)[2].start == RefDay
    ensures AbsoluteWeekDiff(2025, 10, 1) == -1
    ensures AbsoluteWeekDiff(2025, 10, 2) == 0
    ensures AbsoluteWeekDiff(2025, 10, 3) == 1
  {
    RefDayIsSunday();
    November2025();
    BreakFiresExactly(2025, 10);
    WeeksShape(2025, 10);
    var ws := Weeks(2025, 10);
    assert ws == WeeksFrom(20387, 20422, 1);
    WeeksFromShape(20387, 20422, 1);
    assert ws[1].start == RefDay - 7 && ws[2].start == RefDay && ws[3].start == RefDay + 7;
  }

  /** Consecutive weeks of a month are consecutive absolute weeks. */
  lemma ConsecutiveWeeks(year: int, month: int, i: int)
    requires 0 <= i && i + 1 < |Weeks(year, month)|
    ensures AbsoluteWeekDiff(year, month, i + 1) == AbsoluteWeekDiff(year, month, i) + 1
  {
    WeeksShape(year, month);
    CoveringWeeksAligned(year, month);
  }

  // ---------------------------------------------------------------------
  // Duties

  /** The duty at absolute week `absWeek` of the member with offset
      `startOffset`: the `workIdx` of `getWork` without the calendar. */
  function Duty(startOffset: int, absWeek: int): (duty: string)
    ensures duty in Works
    ensures duty == Works[(startOffset + absWeek) % |Works|]
  {
    Works[WorkIndex(startOffset, absWeek, |Works|)]
  }

  /** `getWork(memberIdx, weekIdx)` for the month `month` of `year`: the duty
      of the week's whole-week distance from the reference Sunday, or the duty
      of the reference week itself for an index that names no week. */
  function GetWork(memberIdx: int, year: int, month: int, weekIdx: int): (duty: string)
    requires 0 <= memberIdx < |Members|
    ensures duty in Works
    ensures 0 <= weekIdx < |Weeks(year, month)| ==>
      duty == Works[(Members[memberIdx].startOffset + (Weeks(year, month)[weekIdx].start - RefDay) / 7) % |Works|]
    ensures !(0 <= weekIdx < |Weeks(year, month)|) ==>
      duty == Works[Members[memberIdx].startOffset % |Works|]
  {
    Duty(Members[memberIdx].startOffset, AbsoluteWeekDiff(year, month, weekIdx))
  }

  /** A week that two month views share (the last week of one month and the
      first of the next) is given the same duties in both. */
  lemma SharedWeekSameDuty(memberIdx: int, y1: int, m1: int, i: int, y2: int, m2: int, j: int)
    requires 0 <= memberIdx < |Members|
    requires 0 <= i < |Weeks(y1, m1)| && 0 <= j < |Weeks(y2, m2)|
    requires Weeks(y1, m1)[i].start == Weeks(y2, m2)[j].start
    ensures GetWork(memberIdx, y1, m1, i) == GetWork(memberIdx, y2, m2, j)
  {
    var r1, r2 := AbsoluteWeekDiff(y1, m1, i), AbsoluteWeekDiff(y2, m2, j);
    assert 7 * r1 == 7 * r2;
  }

  /** Duty indices for one absolute week, member by member. */
  function DutyIndices(offsets: seq<int>, absWeek: int, n: int): (p: seq<int>)
    requires n > 0
  {
    seq(|offsets|, i requires 0 <= i < |offsets| => WorkIndex(offsets[i], absWeek, n))
  }

  /** The works picked out by a sequence of indices. */
  function Pick<T>(s: seq<T>, p: seq<int>): (t: seq<T>)
    requires forall i :: 0 <= i < |p| ==> 0 <= p[i] < |s|
  {
    seq(|p|, i requires 0 <= i < |p| => s[p[i]])
  }

  /** What the members of the roster do in the week with absolute offset `absWeek`. */
  function WeekDuties(absWeek: int): (d: seq<string>)
    ensures |d| == |Members|
    ensures forall i :: 0 <= i < |Members| ==>
      d[i] == Works[(Members[i].startOffset + absWeek) % |Works|]
  {
    Pick(Works, DutyIndices(StartOffsets(Members), absWeek, |Works|))
  }

  /** The offsets of a roster, member by member. */
  function StartOffsets(ms: seq<Member>): (o: seq<int>)
  {
    seq(|ms|, i requires 0 <= i < |ms| => ms[i].startOffset)
  }

  predicate Injective(p: seq<int>)
  {
    forall i, j :: 0 <= i < j < |p| ==> p[i] != p[j]
  }

  /** `s` without its element at `v`. */
  function Without<T>(s: seq<T>, v: int): (r: seq<T>)
    requires 0 <= v < |s|
    ensures |r| == |s| - 1
    ensures multiset(r) + multiset{s[v]} == multiset(s)
  {
    assert s == s[..v] + [s[v]] + s[v + 1..];
    s[..v] + s[v + 1..]
  }

  /** All of `p` but its last index, renumbered for `Without(s, v)` where `v`
      is that last index. */
  function Renumber(p: seq<int>, v: int): (q: seq<int>)
    requires |p| > 0
    ensures |q| == |p| - 1
    ensures forall i :: 0 <= i < |q| ==> q[i] == if p[i] < v then p[i] else p[i] - 1
  {
    seq(|p| - 1, i requires 0 <= i < |p| - 1 => if p[i] < v then p[i] else p[i] - 1)
  }

  /** Removing the last index of `p` and the element it picks leaves an
      injective index sequence that picks the rest in the same order. */
  lemma RenumberPicks<T>(s: seq<T>, p: seq<int>)
    requires |p| == |s| > 0
    requires forall i :: 0 <= i < |p| ==> 0 <= p[i] < |s|
    requires Injective(p)
    ensures var v := p[|p| - 1]; var s', p' := Without(s, v), Renumber(p, v);
      && (forall i :: 0 <= i < |p'| ==> 0 <= p'[i] < |s'|)
      && Injective(p')
      && Pick(s, p) == Pick(s', p') + [s[v]]
  {
    var n, v := |s|, p[|p| - 1];
    var s', p' := Without(s, v), Renumber(p, v);
    forall i | 0 <= i < n - 1
      ensures 0 <= p'[i] < |s'| && s'[p'[i]] == s[p[i]]
    {
      assert p[i] != v;
    }
    forall i, j | 0 <= i < j < |p'|
      ensures p'[i] != p'[j]
    {
      assert p[i] != v && p[j] != v && p[i] != p[j];
    }
    assert Pick(s, p)[..n - 1] == Pick(s', p');
  }

  /** Picking from `s` through an injective index sequence as long as `s`
      rearranges `s`. */
  lemma {:induction false} PickPermutes<T>(s: seq<T>, p: seq<int>)
    requires |p| == |s|
    requires forall i :: 0 <= i < |p| ==> 0 <= p[i] < |s|
    requires Injective(p)
    ensures multiset(Pick(s, p)) == multiset(s)
    decreases |s|
  {
    if |s| > 0 {
      var v := p[|p| - 1];
      RenumberPicks(s, p);
      PickPermutes(Without(s, v), Renumber(p, v));
    }
  }

  /** When the members' offsets differ pairwise modulo N and there are as many
      members as duties, the duties of any one week are the list of works
      rearranged: every duty is done by exactly one member. */
  lemma DistinctOffsetsShareOutWorks<T>(offsets: seq<int>, works: seq<T>, absWeek: int)
    requires |offsets| == |works| > 0
    requires forall i, j :: 0 <= i < j < |offsets| ==> offsets[i] % |works| != offsets[j] % |works|
    ensures multiset(Pick(works, DutyIndices(offsets, absWeek, |works|))) == multiset(works)
  {
    var n := |works|;
    var p := DutyIndices(offsets, absWeek, n);
    forall i, j | 0 <= i < j < |p|
      ensures p[i] != p[j]
    {
      ModShift(offsets[i], offsets[j], absWeek, n);
    }
    PickPermutes(works, p);
  }

  /** The converse: two members whose offsets agree modulo N do the same duty
      in every week, and when the works are distinct, two members share a duty
      exactly when their offsets agree modulo N. */
  lemma CollidingOffsetsShareADuty<T>(offsets: seq<int>, works: seq<T>, absWeek: int, i: int, j: int)
    requires |works| > 0
    requires 0 <= i < |offsets| && 0 <= j < |offsets|
    ensures offsets[i] % |works| == offsets[j] % |works| ==>
      Pick(works, DutyIndices(offsets, absWeek, |works|))[i] == Pick(works, DutyIndices(offsets, absWeek, |works|))[j]
    ensures (forall a, b :: 0 <= a < b < |works| ==> works[a] != works[b]) ==>
      (Pick(works, DutyIndices(offsets, absWeek, |works|))[i] == Pick(works, DutyIndices(offsets, absWeek, |works|))[j]
       <==> offsets[i] % |works| == offsets[j] % |works|)
  {
    var n := |works|;
    var p := DutyIndices(offsets, absWeek, n);
    ModShift(offsets[i], offsets[j], absWeek, n);
    assert p[i] == (offsets[i] + absWeek) % n && p[j] == (offsets[j] + absWeek) % n;
    if forall a, b :: 0 <= a < b < n ==> works[a] != works[b] {
      if p[i] < p[j] { assert works[p[i]] != works[p[j]]; }
      if p[j] < p[i] { assert works[p[j]] != works[p[i]]; }
    }
  }

  /** The configured offsets 0..4 differ modulo five, so in every week the five
      members share out the five works. */
  lemma RosterSharesOutWorks(absWeek: int)
    ensures multiset(WeekDuties(absWeek)) == multiset(Works)
  {
    RosterOffsets();
    DistinctOffsetsShareOutWorks(StartOffsets(Members), Works, absWeek);
  }

  /** Member i of the roster has offset i, and there are as many members as works. */
  lemma RosterOffsets()
    ensures |Members| == |Works| == 5
    ensures forall i :: 0 <= i < |Members| ==> Members[i].startOffset == i
  {
  }

  /** One column of the month grid: what each member does in week `weekIdx`. */
  function GridColumn(year: int, month: int, weekIdx: int): seq<string>
  {
    seq(|Members|, m requires 0 <= m < |Members| => GetWork(m, year, month, weekIdx))
  }

  /** Every column of the grid holds each work exactly once. */
  lemma GridColumnSharesOutWorks(year: int, month: int, weekIdx: int)
    ensures multiset(GridColumn(year, month, weekIdx)) == multiset(Works)
  {
    var absWeek := AbsoluteWeekDiff(year, month, weekIdx);
    var c, d := GridColumn(year, month, weekIdx), WeekDuties(absWeek);
    forall m | 0 <= m < |c|
      ensures c[m] == d[m]
    {
    }
    assert c == d;
    RosterSharesOutWorks(absWeek);
  }
}
