/**
 * ISO 8601 week dates (ISO 8601:2004 section 4.1.4) over day numbers.
 *
 * A day is an integer counting days from 1970-01-01, which was a Thursday,
 * in the proleptic Gregorian calendar. Weeks start on Monday; week 1 of an
 * ISO week-year is the week holding that year's first Thursday, so the ISO
 * week-year of a day is the calendar year of the Thursday of its week.
 *
 * The three operations of the weekly review model are CurrentWeek,
 * LastWeek and CalculateWeekStartDate; the clock is a parameter `now`.
 */
module IsoWeek {

  type Day = int

  predicate IsLeapYear(y: int) {
    y % 4 == 0 && (y % 100 != 0 || y % 400 == 0)
  }

  function DaysInYear(y: int): int {
    if IsLeapYear(y) then 366 else 365
  }

  /** The day number of 1 January of year `y`. */
  function Jan1(y: int): Day {
    var p := y - 1;
    365 * p + p / 4 - p / 100 + p / 400 - 719162
  }

  lemma StepDiv(y: int)
    ensures y / 4 - (y - 1) / 4 == if y % 4 == 0 then 1 else 0
    ensures y / 100 - (y - 1) / 100 == if y % 100 == 0 then 1 else 0
    ensures y / 400 - (y - 1) / 400 == if y % 400 == 0 then 1 else 0
  {
  }

  lemma DivisorChain(y: int)
    ensures y % 400 == 0 ==> y % 100 == 0
    ensures y % 100 == 0 ==> y % 4 == 0
  {
    if y % 400 == 0 {
      var q := y / 400;
      assert y == 100 * (4 * q);
    }
    if y % 100 == 0 {
      var q := y / 100;
      assert y == 4 * (25 * q);
    }
  }

  /** Consecutive new years are a year's length apart. */
  lemma YearLength(y: int)
    ensures Jan1(y + 1) == Jan1(y) + DaysInYear(y)
  {
    StepDiv(y);
    DivisorChain(y);
  }

  lemma {:induction false} Jan1Monotone(a: int, b: int)
    requires a <= b
    ensures Jan1(a) + 365 * (b - a) <= Jan1(b)
    decreases b - a
  {
    if a < b {
      Jan1Monotone(a, b - 1);
      YearLength(b - 1);
    }
  }

  /** The calendar year holding day `d`, found by stepping from `y` upwards. */
  function YearUp(d: Day, y: int): (r: int)
    requires Jan1(y) <= d
    ensures Jan1(r) <= d < Jan1(r + 1)
    decreases d - Jan1(y)
  {
    YearLength(y);
    if d < Jan1(y + 1) then y else YearUp(d, y + 1)
  }

  /** The calendar year holding day `d`, found by stepping from `y` downwards. */
  function YearDown(d: Day, y: int): (r: int)
    requires d < Jan1(y + 1)
    ensures Jan1(r) <= d < Jan1(r + 1)
    decreases Jan1(y + 1) - d
  {
    YearLength(y);
    if Jan1(y) <= d then y else YearDown(d, y - 1)
  }

  /** The calendar year holding day `d`. */
  function YearOf(d: Day): (r: int)
    ensures Jan1(r) <= d < Jan1(r + 1)
  {
    if d >= 0 then YearUp(d, 1970) else YearDown(d, 1969)
  }

  /** A day lies in exactly one calendar year. */
  lemma YearOfUnique(d: Day, y: int)
    requires Jan1(y) <= d < Jan1(y + 1)
    ensures YearOf(d) == y
  {
    var r := YearOf(d);
    if r < y {
      Jan1Monotone(r + 1, y);
    } else if y < r {
      Jan1Monotone(y + 1, r);
    }
  }


  /** The previous year's length, stated from year `y`. */
  lemma PreviousYearLength(y: int)
    ensures Jan1(y) - Jan1(y - 1) == DaysInYear(y - 1)
  {
    YearLength(y - 1);
  }

  /** The ISO weekday: 1 is Monday, 7 is Sunday. */
  function IsoWeekday(d: Day): (w: int)
    ensures 1 <= w <= 7
  {
    (d + 3) % 7 + 1
  }

  lemma WeekdayPeriodic(d: Day, k: int)
    ensures IsoWeekday(d + 7 * k) == IsoWeekday(d)
  {
    var q, r := (d + 3) / 7, (d + 3) % 7;
    assert d + 7 * k + 3 == 7 * (q + k) + r;
  }

  /** The Monday on or before `d` (Carbon's startOfWeek with Monday as first day). */
  function MondayOf(d: Day): (m: Day)
    ensures IsoWeekday(m) == 1
    ensures m <= d < m + 7
  {
    var m := d - (d + 3) % 7;
    assert m + 3 == 7 * ((d + 3) / 7);
    m
  }

  /** Two Mondays are a whole number of weeks apart. */
  lemma MondaysApart(m1: Day, m2: Day) returns (k: int)
    requires IsoWeekday(m1) == 1 && IsoWeekday(m2) == 1
    ensures m2 - m1 == 7 * k
  {
    k := (m2 + 3) / 7 - (m1 + 3) / 7;
  }

  /** The Monday of `d`'s week is the only Monday within six days before `d`. */
  lemma MondayOfUnique(d: Day, m: Day)
    requires IsoWeekday(m) == 1 && m <= d < m + 7
    ensures MondayOf(d) == m
  {
    var k := MondaysApart(m, MondayOf(d));
  }

  lemma MondayShift(d: Day)
    ensures MondayOf(d - 7) == MondayOf(d) - 7
  {
    WeekdayPeriodic(MondayOf(d) - 7, 1);
    MondayOfUnique(d - 7, MondayOf(d) - 7);
  }

  /** The ISO week-year of `d`: the calendar year of the Thursday of its week. */
  function IsoYear(d: Day): int {
    YearOf(MondayOf(d) + 3)
  }

  /** The ISO week number of `d`, counted from the week holding the year's first Thursday. */
  function IsoWeekNumber(d: Day): (w: int)
    ensures 1 <= w <= 53
  {
    var y := IsoYear(d);
    YearLength(y);
    (MondayOf(d) + 3 - Jan1(y)) / 7 + 1
  }

  /** An ISO week as the source's arrays carry it: week-year, week number, Monday. */
  datatype WeekInfo = WeekInfo(year: int, week: int, weekStart: Day)

  /**
   * The Monday of ISO week `week` of ISO year `year` (PHP's setISODate with
   * day 1): the Monday of the week holding 4 January, plus `week - 1` weeks.
   * Like setISODate it accepts any week number and rolls over.
   */
  function CalculateWeekStartDate(year: int, week: int): (m: Day)
    ensures IsoWeekday(m) == 1
  {
    WeekdayPeriodic(MondayOf(Jan1(year) + 3), week - 1);
    MondayOf(Jan1(year) + 3) + 7 * (week - 1)
  }

  /** Consecutive week numbers of a year start seven days apart. */
  lemma WeekStartStep(y: int, w: int)
    ensures CalculateWeekStartDate(y, w) == CalculateWeekStartDate(y, w - 1) + 7
  {
  }

  /** Week 1 of every ISO year starts between 29 December and 4 January. */
  lemma Week1Start(y: int)
    ensures Jan1(y) - 3 <= CalculateWeekStartDate(y, 1) <= Jan1(y) + 3
  {
  }

  /** The week date of any day leads back to the Monday of that day's week. */
  lemma WeekStartRoundTrip(d: Day)
    ensures CalculateWeekStartDate(IsoYear(d), IsoWeekNumber(d)) == MondayOf(d)
  {
    var m := MondayOf(d);
    var y := IsoYear(d);
    var j := Jan1(y);
    var w1 := CalculateWeekStartDate(y, 1);
    Week1Start(y);
    var k := MondaysApart(w1, m);
    // The Thursday m + 3 lies in year y, and so does the first Thursday w1 + 3.
    assert j <= m + 3;
    assert m + 3 - j == 7 * k + (w1 + 3 - j);
    assert 0 <= w1 + 3 - j < 7;
    assert k >= 0;
    assert (m + 3 - j) / 7 == k;
  }

  /** The year, week and Monday of the current ISO week. */
  function CurrentWeek(now: Day): (r: WeekInfo)
    ensures 1 <= r.week <= 53
    ensures IsoWeekday(r.weekStart) == 1 && r.weekStart <= now < r.weekStart + 7
    ensures CalculateWeekStartDate(r.year, r.week) == r.weekStart
  {
    WeekStartRoundTrip(now);
    WeekInfo(IsoYear(now), IsoWeekNumber(now), MondayOf(now))
  }

  /** Past week 1, the previous week has the same ISO year and the previous number. */
  lemma PreviousWeekSameYear(d: Day)
    requires IsoWeekNumber(d) > 1
    ensures IsoYear(d - 7) == IsoYear(d)
    ensures IsoWeekNumber(d - 7) == IsoWeekNumber(d) - 1
  {
    var m := MondayOf(d);
    var y := IsoYear(d);
    MondayShift(d);
    assert m + 3 - Jan1(y) >= 7;
    YearOfUnique(m - 7 + 3, y);
  }

  /** A day whose Thursday lies in calendar year `y - 1` has ISO year `y - 1`. */
  lemma InPreviousIsoYear(d: Day, y: int)
    requires Jan1(y - 1) <= MondayOf(d) + 3 < Jan1(y)
    ensures IsoYear(d) == y - 1
  {
    YearOfUnique(MondayOf(d) + 3, y - 1);
  }

  /** The week number of a day, from its Monday and ISO year. */
  lemma WeekNumberIs(d: Day, m: Day, y: int)
    requires MondayOf(d) == m && IsoYear(d) == y
    ensures IsoWeekNumber(d) == (m + 3 - Jan1(y)) / 7 + 1
  {
  }

  /** The Thursday a week before one in the first week of a year lies 51 or 52 weeks into the previous year. */
  lemma RollOverArith(t: int, j0: int, j1: int)
    requires j1 - j0 == 365 || j1 - j0 == 366
    requires 0 <= t + 7 - j1 < 7
    ensures j0 <= t < j1
    ensures (t - j0) / 7 == 51 || (t - j0) / 7 == 52
  {
  }

  /** The week before week 1 is week 52 or 53 of the previous ISO year. */
  lemma PreviousWeekRollsOver(d: Day)
    requires IsoWeekNumber(d) == 1
    ensures IsoYear(d - 7) == IsoYear(d) - 1
    ensures IsoWeekNumber(d - 7) == 52 || IsoWeekNumber(d - 7) == 53
  {
    var y := IsoYear(d);
    WeekNumberIs(d, MondayOf(d), y);
    MondayShift(d);
    PreviousYearLength(y);
    RollOverArith(MondayOf(d - 7) + 3, Jan1(y - 1), Jan1(y));
    InPreviousIsoYear(d - 7, y);
    WeekNumberIs(d - 7, MondayOf(d - 7), y - 1);
  }

  /** The number of ISO weeks (52 or 53) in ISO year `y`. */
  function WeeksInIsoYear(y: int): int {
    (CalculateWeekStartDate(y + 1, 1) - CalculateWeekStartDate(y, 1)) / 7
  }

  /**
   * The previous ISO week, as the source computes it: on week 1 the ISO
   * year and week of the day seven days earlier, otherwise the same year and
   * the week number minus one; the Monday is always that of seven days earlier.
   */
  function LastWeek(now: Day): (r: WeekInfo)
    ensures r == CurrentWeek(now - 7)
  {
    var current := CurrentWeek(now);
    if current.week == 1 then
      CurrentWeek(now - 7)
    else
      PreviousWeekSameYear(now);
      MondayShift(now);
      WeekInfo(current.year, current.week - 1, MondayOf(now - 7))
  }

  /** The previous week starts seven days earlier. */
  lemma LastWeekStart(now: Day)
    ensures LastWeek(now).weekStart == CurrentWeek(now).weekStart - 7
  {
    MondayShift(now);
  }

  /** Past week 1, the previous week is in the same ISO year with the number one less. */
  lemma LastWeekSameYear(now: Day)
    requires CurrentWeek(now).week > 1
    ensures LastWeek(now).year == CurrentWeek(now).year
    ensures LastWeek(now).week == CurrentWeek(now).week - 1
  {
    PreviousWeekSameYear(now);
  }

  /** On week 1, the previous week is the last week (52 or 53) of the previous ISO year. */
  lemma LastWeekRollsOver(now: Day)
    requires CurrentWeek(now).week == 1
    ensures LastWeek(now).year == CurrentWeek(now).year - 1
    ensures LastWeek(now).week == WeeksInIsoYear(LastWeek(now).year)
    ensures LastWeek(now).week == 52 || LastWeek(now).week == 53
  {
    var current, r := CurrentWeek(now), LastWeek(now);
    PreviousWeekRollsOver(now);
    LastWeekStart(now);
    var y := r.year;
    assert CalculateWeekStartDate(y + 1, 1) == current.weekStart;
    var w1 := CalculateWeekStartDate(y, 1);
    assert current.weekStart - w1 == 7 * r.week;
  }

  /** A 1 January on Friday, Saturday or Sunday belongs to week 52 or 53 of the previous ISO year. */
  lemma NewYearInPreviousIsoYear(y: int)
    requires IsoWeekday(Jan1(y)) >= 5
    ensures IsoYear(Jan1(y)) == y - 1
    ensures IsoWeekNumber(Jan1(y)) == 52 || IsoWeekNumber(Jan1(y)) == 53
  {
    var m := MondayOf(Jan1(y));
    assert m + 3 < Jan1(y);
    YearLength(y - 1);
    YearOfUnique(m + 3, y - 1);
  }

  /** Friday 1 January 2021 is in week 53 of ISO year 2020, which began on Monday 28 December 2020. */
  lemma NewYear2021()
    ensures CurrentWeek(Jan1(2021)) == WeekInfo(2020, 53, Jan1(2021) - 4)
  {
    assert Jan1(2021) == 18628 && Jan1(2020) == 18262;
    assert MondayOf(18628) == 18624;
    YearOfUnique(18627, 2020);
  }

  /** Days of the same week share their ISO week. */
  lemma SameWeek(a: Day, b: Day)
    requires MondayOf(a) == MondayOf(b)
    ensures CurrentWeek(a) == CurrentWeek(b)
  {
  }

  /** Monday 4 January 2021 begins week 1 of ISO year 2021. */
  lemma Week1Of2021()
    ensures CurrentWeek(Jan1(2021) + 3) == WeekInfo(2021, 1, Jan1(2021) + 3)
  {
    assert Jan1(2021) == 18628 && Jan1(2022) == 18993;
    assert MondayOf(18631) == 18631;
    YearOfUnique(18634, 2021);
  }

  /** On Monday 4 January 2021 the previous week is week 53 of 2020. */
  lemma LastWeekAcross2021()
    ensures LastWeek(Jan1(2021) + 3) == WeekInfo(2020, 53, Jan1(2021) - 4)
  {
    assert Jan1(2021) == 18628;
    assert MondayOf(18624) == 18624 && MondayOf(18628) == 18624;
    SameWeek(18624, 18628);
    NewYear2021();
  }
}
