/** Calendar dates of the proleptic Gregorian calendar and the time buckets
    derived from them: the year, the 0-based month and the ISO week number of
    ISO 8601 (section 4.1.4 of ISO 8601:2004), computed as the `isoWeek` plugin
    of dayjs computes it. Days are counted from 0001-01-01, a Monday. */
module Calendar {

  /** A calendar date; `month` runs from 1 (January) to 12. */
  datatype Date = Date(year: int, month: int, day: int)

  predicate IsLeapYear(y: int) {
    y % 4 == 0 && (y % 100 != 0 || y % 400 == 0)
  }

  function DaysInYear(y: int): int {
    if IsLeapYear(y) then 366 else 365
  }

  function DaysInMonth(y: int, m: int): int
    requires 1 <= m <= 12
  {
    if m == 2 then (if IsLeapYear(y) then 29 else 28)
    else if m == 4 || m == 6 || m == 9 || m == 11 then 30
    else 31
  }

  predicate IsValid(d: Date) {
    1 <= d.month <= 12 && 1 <= d.day <= DaysInMonth(d.year, d.month)
  }

  /** Days of the year before the first of month `m`. */
  function DaysBeforeMonth(y: int, m: int): (r: int)
    requires 1 <= m <= 12
    ensures 0 <= r && r + DaysInMonth(y, m) <= DaysInYear(y)
  {
    var table := [0, 31, 59, 90, 120, 151, 181, 212, 243, 273, 304, 334];
    table[m - 1] + (if m > 2 && IsLeapYear(y) then 1 else 0)
  }

  /** The day number of 1 January of year `y`. */
  function YearStart(y: int): int {
    var p := y - 1;
    365 * p + p / 4 - p / 100 + p / 400
  }

  /** Consecutive years start `DaysInYear` days apart. */
  lemma YearLength(y: int)
    ensures YearStart(y + 1) - YearStart(y) == DaysInYear(y)
  {
    var p := y - 1;
    assert y / 4 - p / 4 == (if y % 4 == 0 then 1 else 0);
    assert y / 100 - p / 100 == (if y % 100 == 0 then 1 else 0);
    assert y / 400 - p / 400 == (if y % 400 == 0 then 1 else 0);
  }

  /** The day number of a date: the days elapsed since 0001-01-01. */
  function DayNumber(d: Date): (n: int)
    requires IsValid(d)
    ensures YearStart(d.year) <= n < YearStart(d.year + 1)
  {
    YearLength(d.year);
    YearStart(d.year) + DaysBeforeMonth(d.year, d.month) + d.day - 1
  }

  /** The ISO weekday of day number `n`: 1 for Monday up to 7 for Sunday. */
  function IsoWeekday(n: int): (w: int)
    ensures 1 <= w <= 7
  {
    n % 7 + 1
  }

  /** dayjs `month()`: the 0-based month. */
  function MonthIndex(d: Date): int {
    d.month - 1
  }

  /** The Thursday of the Monday-to-Sunday week that holds day `n`. */
  function ThursdayOf(n: int): int {
    n + (4 - IsoWeekday(n))
  }

  /** The first Thursday of year `y`, found as dayjs finds it: from the weekday
      of 1 January, forward to Thursday, a week later if that passed. */
  function FirstThursday(y: int): int {
    ThursdayOnOrAfter(YearStart(y))
  }

  function ThursdayOnOrAfter(jan1: int): int {
    var w := IsoWeekday(jan1);
    jan1 + (4 - w) + (if w > 4 then 7 else 0)
  }

  /** The calendar year of the Thursday of the date's week (dayjs `isoWeekYear`). */
  function IsoWeekYear(d: Date): int
    requires IsValid(d)
  {
    var t := ThursdayOf(DayNumber(d));
    if t < YearStart(d.year) then d.year - 1
    else if t >= YearStart(d.year + 1) then d.year + 1
    else d.year
  }

  /** dayjs `isoWeek()`: whole weeks from the first Thursday of the week-year to
      the Thursday of the date's week, plus one. */
  function IsoWeek(d: Date): int
    requires IsValid(d)
  {
    (ThursdayOf(DayNumber(d)) - FirstThursday(IsoWeekYear(d))) / 7 + 1
  }

  /** The Monday that starts week 1 of year `y` in ISO 8601: the Monday of the
      week that holds 4 January. */
  function Week1Monday(y: int): int {
    MondayOf(YearStart(y) + 3)
  }

  /** The Monday of the week that holds day `n`. */
  function MondayOf(n: int): int {
    n - (IsoWeekday(n) - 1)
  }

  lemma FirstThursdayFacts(y: int)
    ensures FirstThursday(y) % 7 == 3
    ensures YearStart(y) <= FirstThursday(y) <= YearStart(y) + 6
    ensures Week1Monday(y) == FirstThursday(y) - 3
  {
    WeekAnchors(YearStart(y));
  }

  lemma WeekAnchors(jan1: int)
    ensures ThursdayOnOrAfter(jan1) % 7 == 3
    ensures jan1 <= ThursdayOnOrAfter(jan1) <= jan1 + 6
    ensures MondayOf(jan1 + 3) == ThursdayOnOrAfter(jan1) - 3
  {
    var ft := ThursdayOnOrAfter(jan1);
    var m := MondayOf(jan1 + 3);
    assert ft == jan1 + 3 - jan1 % 7 + (if jan1 % 7 > 3 then 7 else 0);
    assert ft % 7 == 3;
    assert m == jan1 + 3 - (jan1 + 3) % 7;
    assert m % 7 == 0;
    var a, b := m / 7, (ft - 3) / 7;
    assert m == 7 * a && ft - 3 == 7 * b;
    assert -7 < m - (ft - 3) < 7;
  }

  /** The Thursday of the date's week lies in its week-year, which is the
      calendar year or one of its neighbours. */
  lemma ThursdayInWeekYear(d: Date)
    requires IsValid(d)
    ensures var t := ThursdayOf(DayNumber(d));
            var y := IsoWeekYear(d);
            YearStart(y) <= t < YearStart(y + 1)
    ensures d.year - 1 <= IsoWeekYear(d) <= d.year + 1
  {
    YearLength(d.year - 1);
    YearLength(d.year);
    YearLength(d.year + 1);
  }

  /** The arithmetic of week counting on day numbers: `t` is the Thursday of
      the week of day `n`, inside the year that starts on day `ys` and ends
      before day `ys1`; `ft` and `ft1` are the first Thursdays of that year and
      of the next. */
  lemma WeekArithmetic(n: int, t: int, ys: int, ys1: int, ft: int, ft1: int)
    requires t == n + 3 - n % 7
    requires ys <= t < ys1 <= ys + 366
    requires ft % 7 == 3 && ys <= ft <= ys + 6
    requires ft1 % 7 == 3 && ys1 <= ft1
    ensures 0 <= (t - ft) / 7 <= 52
    ensures ft - 3 <= n < ft1 - 3
    ensures (n - (ft - 3)) / 7 == (t - ft) / 7
  {
    assert t % 7 == 3;
    var k := t / 7 - ft / 7;
    assert t - ft == 7 * k;
    assert k >= 0 by {
      assert t - ft > -7;
    }
    assert k <= 52 by {
      assert t - ft < 366;
    }
    assert (t - ft) / 7 == k;
    var k' := ft1 / 7 - t / 7;
    assert ft1 - t == 7 * k';
    assert k' >= 1 by {
      assert ft1 - t > 0;
    }
    assert n - (ft - 3) == 7 * k + n % 7;
  }

  /** The week number lies between 1 and 53, and the date lies in the ISO week
      it names: between the Monday of week 1 of its week-year and the Monday of
      week 1 of the next, a whole number of weeks after the former. */
  lemma {:induction false} IsoWeekStandard(d: Date)
    requires IsValid(d)
    ensures 1 <= IsoWeek(d) <= 53
    ensures var n, y := DayNumber(d), IsoWeekYear(d);
            && Week1Monday(y) <= n < Week1Monday(y + 1)
            && IsoWeek(d) == (n - Week1Monday(y)) / 7 + 1
  {
    var n := DayNumber(d);
    var y := IsoWeekYear(d);
    var t := ThursdayOf(n);
    ThursdayInWeekYear(d);
    FirstThursdayFacts(y);
    FirstThursdayFacts(y + 1);
    YearLength(y);
    WeekArithmetic(n, t, YearStart(y), YearStart(y + 1), FirstThursday(y), FirstThursday(y + 1));
  }

  /** Every valid date gets a week number from 1 to 53. */
  lemma IsoWeekRange(d: Date)
    requires IsValid(d)
    ensures 1 <= IsoWeek(d) <= 53
  {
    IsoWeekStandard(d);
  }

  /** At a year boundary the ISO week belongs to the neighbouring year while the
      calendar year stays: 31 December 2024 is in week 1 (of 2025), and
      1 January 2021 is in week 53 (of 2020). */
  lemma YearBoundaryWeeks()
    ensures IsValid(Date(2024, 12, 31)) && IsoWeek(Date(2024, 12, 31)) == 1
    ensures IsoWeekYear(Date(2024, 12, 31)) == 2025
    ensures IsValid(Date(2021, 1, 1)) && IsoWeek(Date(2021, 1, 1)) == 53
    ensures IsoWeekYear(Date(2021, 1, 1)) == 2020
  {
    LastDayOf2024(Date(2024, 12, 31));
    FirstDayOf2021(Date(2021, 1, 1));
  }

  /** 2 January falls in week 1 in both 2024 and 2025, each in its own
      week-year. */
  lemma EarlyJanuaryWeeks()
    ensures IsValid(Date(2024, 1, 2)) && IsoWeek(Date(2024, 1, 2)) == 1
    ensures IsoWeekYear(Date(2024, 1, 2)) == 2024
    ensures IsValid(Date(2025, 1, 2)) && IsoWeek(Date(2025, 1, 2)) == 1
    ensures IsoWeekYear(Date(2025, 1, 2)) == 2025
  {
    SecondOfJanuary2024(Date(2024, 1, 2));
    SecondOfJanuary2025(Date(2025, 1, 2));
  }

  // The single dates, for callers that hold them in variables.

  lemma LastDayOf2024(d: Date)
    requires d == Date(2024, 12, 31)
    ensures IsValid(d) && IsoWeek(d) == 1 && IsoWeekYear(d) == 2025
  {
    assert YearStart(2024) == 738885;
    assert YearStart(2025) == 739251;
    assert DayNumber(d) == 739250;
    assert IsoWeekday(739250) == 2;
    assert ThursdayOf(739250) == 739252;
    assert IsoWeekday(739251) == 3;
    assert FirstThursday(2025) == 739252;
  }

  lemma FirstDayOf2021(d: Date)
    requires d == Date(2021, 1, 1)
    ensures IsValid(d) && IsoWeek(d) == 53 && IsoWeekYear(d) == 2020
  {
    assert YearStart(2020) == 737424;
    assert YearStart(2021) == 737790;
    assert DayNumber(d) == 737790;
    assert IsoWeekday(737790) == 5;
    assert ThursdayOf(737790) == 737789;
    assert IsoWeekday(737424) == 3;
    assert FirstThursday(2020) == 737425;
  }

  lemma SecondOfJanuary2024(d: Date)
    requires d == Date(2024, 1, 2)
    ensures IsValid(d) && IsoWeek(d) == 1 && IsoWeekYear(d) == 2024
  {
    assert YearStart(2024) == 738885;
    assert YearStart(2025) == 739251;
    assert DayNumber(d) == 738886;
    assert IsoWeekday(738886) == 2;
    assert ThursdayOf(738886) == 738888;
    assert IsoWeekday(738885) == 1;
    assert FirstThursday(2024) == 738888;
  }

  lemma SecondOfJanuary2025(d: Date)
    requires d == Date(2025, 1, 2)
    ensures IsValid(d) && IsoWeek(d) == 1 && IsoWeekYear(d) == 2025
  {
    assert YearStart(2025) == 739251;
    assert YearStart(2026) == 739616;
    assert DayNumber(d) == 739252;
    assert IsoWeekday(739252) == 4;
    assert ThursdayOf(739252) == 739252;
    assert IsoWeekday(739251) == 3;
    assert FirstThursday(2025) == 739252;
  }
}
