/**
 * Calendar arithmetic behind the `%Y-%W` week key that every overload
 * computation uses (BackEnd.py lines 198, 231, 312 and 321).
 *
 * A date is a day number: days since 0001-01-01 in the proleptic Gregorian
 * calendar (Python's `date.toordinal() - 1`), so day 0 is a Monday and the
 * last representable date, 9999-12-31, is `MaxDay`. The week key is the
 * `%W` conversion of strftime in ISO C (section 7.27.3.5 of C11): weeks start
 * on Monday, and the days of a year before its first Monday are in week 0.
 * It is not ISO 8601 week numbering.
 */
module Calendar {

  /** Day number of 9999-12-31, the last date Python's `datetime` can hold. */
  const MaxDay: int := 3652058

  /** A representable calendar date. */
  type Day = d: int | 0 <= d <= MaxDay

  predicate IsLeap(y: int) {
    y % 4 == 0 && (y % 100 != 0 || y % 400 == 0)
  }

  function YearLength(y: int): int {
    if IsLeap(y) then 366 else 365
  }

  /** Day number of January 1 of year `y`: the lengths of the years before it, added up. */
  function YearStart(y: int): (s: int)
    requires y >= 1
    ensures s >= 365 * (y - 1)
  {
    if y == 1 then 0 else YearStart(y - 1) + YearLength(y - 1)
  }

  lemma YearStartNext(y: int)
    requires y >= 1
    ensures YearStart(y + 1) == YearStart(y) + YearLength(y)
  {
  }

  /** Dividing a successor by 4, 100 or 400: the quotient grows by one exactly at multiples. */
  lemma DivSucc(n: int, k: int)
    requires n >= 0 && (k == 4 || k == 100 || k == 400)
    ensures (n + 1) / k == n / k + (if (n + 1) % k == 0 then 1 else 0)
  {
    var q := n / k;
    var r := n % k;
    if k == 4 {
      assert n == 4 * q + r && 0 <= r < 4;
    } else if k == 100 {
      assert n == 100 * q + r && 0 <= r < 100;
    } else {
      assert n == 400 * q + r && 0 <= r < 400;
    }
  }

  /** The leap years up to `n + 1` counted by quotients: one more than up to `n` exactly when `n + 1` is leap. */
  lemma LeapStep(n: int)
    requires n >= 0
    ensures (n + 1) / 4 - (n + 1) / 100 + (n + 1) / 400 == n / 4 - n / 100 + n / 400 + (if IsLeap(n + 1) then 1 else 0)
  {
    var m := n + 1;
    DivSucc(n, 4);
    DivSucc(n, 100);
    DivSucc(n, 400);
    if m % 400 == 0 {
      assert m == 100 * (4 * (m / 400));
    }
    if m % 100 == 0 {
      assert m == 4 * (25 * (m / 100));
    }
  }

  /** The Gregorian closed form: 365 days a year plus one per leap year before `y`. */
  lemma {:induction false} YearStartClosed(y: int)
    requires y >= 1
    ensures var n := y - 1; YearStart(y) == 365 * n + n / 4 - n / 100 + n / 400
  {
    if y > 1 {
      YearStartClosed(y - 1);
      LeapStep(y - 2);
    }
  }

  /** No year from 10000 on starts at a representable date. */
  lemma YearStartBeyond(y: int)
    requires y >= 10000
    ensures YearStart(y) > MaxDay
  {
    YearStartClosed(y);
  }

  lemma {:induction false} YearStartMonotone(y1: int, y2: int)
    requires 1 <= y1 <= y2
    ensures YearStart(y1) + 365 * (y2 - y1) <= YearStart(y2)
    decreases y2 - y1
  {
    if y1 < y2 {
      YearStartMonotone(y1, y2 - 1);
      YearStartNext(y2 - 1);
    }
  }

  /** The year holding the day `k` days after January 1 of year `y`, counted year by year. */
  function YearFrom(y: int, k: int): int
    requires y >= 1 && k >= 0
    decreases k
  {
    if k < YearLength(y) then y else YearFrom(y + 1, k - YearLength(y))
  }

  lemma {:induction false} YearFromBounds(y: int, k: int)
    requires y >= 1 && k >= 0
    ensures YearFrom(y, k) >= y
    ensures YearStart(YearFrom(y, k)) <= YearStart(y) + k < YearStart(YearFrom(y, k) + 1)
    decreases k
  {
    YearStartNext(y);
    if k >= YearLength(y) {
      YearFromBounds(y + 1, k - YearLength(y));
    }
  }

  /** The calendar year that day `d` falls in. */
  function CivilYear(d: int): (y: int)
    requires d >= 0
    ensures y >= 1 && YearStart(y) <= d < YearStart(y + 1)
  {
    YearFromBounds(1, d);
    YearFrom(1, d)
  }

  /** Every day lies in exactly one year. */
  lemma CivilYearUnique(d: int, y: int)
    requires d >= 0 && y >= 1 && YearStart(y) <= d < YearStart(y + 1)
    ensures CivilYear(d) == y
  {
    var y' := CivilYear(d);
    if y' < y {
      YearStartMonotone(y' + 1, y);
    } else if y < y' {
      YearStartMonotone(y + 1, y');
    }
  }

  /** Day of the week, Monday = 0 ... Sunday = 6 (0001-01-01 was a Monday). */
  function Weekday(d: int): (w: int)
    ensures 0 <= w < 7
  {
    d % 7
  }

  /** The Monday that starts the Monday-to-Sunday week holding `d`. */
  function MondayOf(d: int): (m: int)
    ensures m <= d < m + 7 && Weekday(m) == 0
  {
    d - Weekday(d)
  }

  /** Zero-based day of the year (`tm_yday`). */
  function YearDay(d: int): (k: int)
    requires d >= 0
    ensures 0 <= k < YearLength(CivilYear(d))
  {
    YearStartNext(CivilYear(d));
    d - YearStart(CivilYear(d))
  }

  /** `%W`: the number of Mondays of the year on or before `d`. */
  function WeekNumber(d: int): int
    requires d >= 0
  {
    (YearDay(d) - Weekday(d) + 7) / 7
  }

  /** The `%Y-%W` bucket of a date, as a (year, week) pair. */
  datatype WeekKey = WeekKey(year: int, week: int)

  function WeekOf(d: Day): WeekKey {
    WeekKey(CivilYear(d), WeekNumber(d))
  }

  /** Strict "earlier" order of keys; for four-digit years it is the order of the `%Y-%W` strings. */
  predicate Earlier(a: WeekKey, b: WeekKey) {
    a.year < b.year || (a.year == b.year && a.week < b.week)
  }

  /** An integer that orders keys as `Earlier` does (weeks never reach 100). */
  function Rank(k: WeekKey): int {
    100 * k.year + k.week
  }

  lemma WeekNumberAsMonday(d: int)
    requires d >= 0
    ensures WeekNumber(d) == d / 7 + (7 - YearStart(CivilYear(d))) / 7
  {
    var j := YearStart(CivilYear(d));
    var q := d / 7;
    assert YearDay(d) - Weekday(d) + 7 == 7 * q + (7 - j);
    assert (7 * q + (7 - j)) / 7 == q + (7 - j) / 7;
  }

  /** Years 1 to 9999, weeks 0 to 53. */
  lemma WeekOfRange(d: Day)
    ensures 1 <= WeekOf(d).year <= 9999
    ensures 0 <= WeekOf(d).week <= 53
  {
    var y := CivilYear(d);
    if y > 9999 {
      YearStartBeyond(y);
    }
  }

  /**
   * Shared week key: two dates get the same key exactly when they are in the
   * same calendar year and in the same Monday-to-Sunday week.
   */
  lemma SameWeekKey(d1: Day, d2: Day)
    ensures WeekOf(d1) == WeekOf(d2) <==>
            CivilYear(d1) == CivilYear(d2) && MondayOf(d1) == MondayOf(d2)
  {
    WeekNumberAsMonday(d1);
    WeekNumberAsMonday(d2);
    assert MondayOf(d1) == 7 * (d1 / 7);
    assert MondayOf(d2) == 7 * (d2 / 7);
  }

  /** Keys never decrease as the date advances. */
  lemma WeekOfMonotone(d1: Day, d2: Day)
    requires d1 <= d2
    ensures !Earlier(WeekOf(d2), WeekOf(d1))
  {
    var y1, y2 := CivilYear(d1), CivilYear(d2);
    if y2 < y1 {
      YearStartMonotone(y2 + 1, y1);
    }
    if y1 == y2 {
      WeekNumberAsMonday(d1);
      WeekNumberAsMonday(d2);
      assert d1 / 7 <= d2 / 7;
    }
  }

  /** Two dates a week or more apart are never in the same bucket. */
  lemma WeekApart(d1: Day, d2: Day)
    requires d1 + 7 <= d2
    ensures WeekOf(d1) != WeekOf(d2)
  {
    SameWeekKey(d1, d2);
  }

  /** January 1 always starts a new bucket, whatever its weekday. */
  lemma NewYearStartsBucket(x: int)
    requires 1 <= x && YearStart(x + 1) <= MaxDay
    ensures WeekOf(YearStart(x + 1) - 1) != WeekOf(YearStart(x + 1))
    ensures WeekOf(YearStart(x + 1) - 1).year == x && WeekOf(YearStart(x + 1)).year == x + 1
  {
    NewYearCivil(x);
  }

  /** December 31 of year `x` is in year `x`, and the next day in year `x + 1`. */
  lemma NewYearCivil(x: int)
    requires 1 <= x
    ensures YearStart(x + 1) >= 1
    ensures CivilYear(YearStart(x + 1) - 1) == x && CivilYear(YearStart(x + 1)) == x + 1
  {
    YearStartNext(x);
    YearStartNext(x + 1);
    CivilYearUnique(YearStart(x + 1) - 1, x);
    CivilYearUnique(YearStart(x + 1), x + 1);
  }

  /** Week 0 holds exactly the days before the first Monday of the year. */
  lemma WeekZeroBeforeFirstMonday(d: Day)
    ensures WeekOf(d).week == 0 <==> MondayOf(d) < YearStart(CivilYear(d))
  {
  }

  /** `Rank` orders keys as `Earlier` does. */
  lemma RankOrder(a: WeekKey, b: WeekKey)
    requires 0 <= a.week < 100 && 0 <= b.week < 100
    ensures Earlier(a, b) <==> Rank(a) < Rank(b)
  {
  }
}
