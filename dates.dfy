/**
 * Gregorian calendar arithmetic in the shape JavaScript's Date exposes it to
 * the scraper: getFullYear(), getMonth() counting months 0..11, getDate()
 * counting days 1..31, getDay() counting weekdays 0 (Sunday) .. 6 (Saturday),
 * setDate() rolling an overflowing day into the following months, and the
 * comparison of two Date objects by their underlying time value.
 */
module Dates {

  /** A local calendar date: the full year, the month 0..11 and the day of the month. */
  datatype Date = Date(year: int, month: int, day: int)

  /** A month of a year, months numbered 0..11. */
  datatype YearMonth = YearMonth(year: int, month: int)

  /** The weekday number getDay() reports for a Friday. */
  const Friday := 5

  predicate IsLeapYear(y: int) {
    y % 4 == 0 && (y % 100 != 0 || y % 400 == 0)
  }

  /** The length of month m of year y: February has 29 days in leap years and 28 otherwise. */
  function DaysInMonth(y: int, m: int): (n: int)
    requires 0 <= m < 12
    ensures 28 <= n <= 31
    ensures n < 30 <==> m == 1
    ensures m == 1 ==> (n == 29 <==> IsLeapYear(y))
  {
    if m == 1 then (if IsLeapYear(y) then 29 else 28)
    else if m == 3 || m == 5 || m == 8 || m == 10 then 30
    else 31
  }

  predicate ValidMonth(ym: YearMonth) {
    0 <= ym.month < 12
  }

  predicate ValidDate(d: Date) {
    0 <= d.month < 12 && 1 <= d.day <= DaysInMonth(d.year, d.month)
  }

  /** Months counted from year 0: the linear position of a month in time. */
  function MonthIndex(ym: YearMonth): int {
    ym.year * 12 + ym.month
  }

  /** January 1970, the month whose first day is day 0. */
  const EpochMonth := YearMonth(1970, 0)

  /** The month one click of the calendar's "next month" control shows after ym. */
  function NextMonth(ym: YearMonth): (r: YearMonth)
    requires ValidMonth(ym)
    ensures ValidMonth(r) && MonthIndex(r) == MonthIndex(ym) + 1
  {
    if ym.month == 11 then YearMonth(ym.year + 1, 0) else YearMonth(ym.year, ym.month + 1)
  }

  /** The month before ym, the one whose NextMonth is ym. */
  function PreviousMonth(ym: YearMonth): (r: YearMonth)
    requires ValidMonth(ym)
    ensures ValidMonth(r) && NextMonth(r) == ym && MonthIndex(r) == MonthIndex(ym) - 1
  {
    if ym.month == 0 then YearMonth(ym.year - 1, 11) else YearMonth(ym.year, ym.month - 1)
  }

  /**
   * Number of days from 1 January 1970 to the first day of month ym (negative
   * before 1970): each month starts as many days after the previous one as
   * the previous one is long.
   */
  function MonthStart(ym: YearMonth): int
    requires ValidMonth(ym)
    decreases if MonthIndex(ym) < MonthIndex(EpochMonth) then MonthIndex(EpochMonth) - MonthIndex(ym)
              else MonthIndex(ym) - MonthIndex(EpochMonth)
  {
    if ym == EpochMonth then 0
    else if MonthIndex(ym) > MonthIndex(EpochMonth) then
      var p := PreviousMonth(ym);
      MonthStart(p) + DaysInMonth(p.year, p.month)
    else
      MonthStart(NextMonth(ym)) - DaysInMonth(ym.year, ym.month)
  }

  /**
   * The day count behind a Date's time value: days since 1 January 1970.
   * Defined for any day number within a valid month, so that day x of a month
   * lies x - 1 days after its first, whether or not x fits in the month.
   */
  function DayNumber(d: Date): int
    requires 0 <= d.month < 12
  {
    MonthStart(YearMonth(d.year, d.month)) + d.day - 1
  }

  /** getDay() of the day with the given day count: 1 January 1970 was a Thursday (4). */
  function WeekdayOf(n: int): (w: int)
    ensures 0 <= w < 7
  {
    (n + 4) % 7
  }

  function Weekday(d: Date): (w: int)
    requires 0 <= d.month < 12
    ensures 0 <= w < 7
  {
    WeekdayOf(DayNumber(d))
  }

  /** The weekday j days after day n is j steps on from n's weekday. */
  lemma WeekdayShift(n: int, j: int)
    ensures WeekdayOf(n + j) == (WeekdayOf(n) + j) % 7
  {
    var q := (n + 4) / 7;
    assert n + 4 == 7 * q + WeekdayOf(n);
    assert n + j + 4 == 7 * q + (WeekdayOf(n) + j);
  }

  /** Fewer than seven days on, the weekday has moved on by as many steps, wrapping past Saturday. */
  lemma WeekdayStep(n: int, j: int)
    requires 0 <= j < 7
    ensures WeekdayOf(n + j) == if WeekdayOf(n) + j < 7 then WeekdayOf(n) + j else WeekdayOf(n) + j - 7
  {
    WeekdayShift(n, j);
  }

  /** Days a whole number of weeks apart fall on the same weekday. */
  lemma WeekdayAfterWeeks(n: int, i: int)
    ensures WeekdayOf(n + 7 * i) == WeekdayOf(n)
  {
    WeekdayShift(n, 7 * i);
  }

  /** Days on the same weekday lie a whole number of weeks apart. */
  lemma SameWeekdayWeeksApart(a: int, b: int)
    requires WeekdayOf(a) == WeekdayOf(b)
    ensures (b - a) % 7 == 0
  {
    var qa := (a + 4) / 7;
    var qb := (b + 4) / 7;
    assert a + 4 == 7 * qa + WeekdayOf(a);
    assert b + 4 == 7 * qb + WeekdayOf(b);
    assert b - a == 7 * (qb - qa);
  }

  function FirstOfMonth(ym: YearMonth): Date {
    Date(ym.year, ym.month, 1)
  }

  /** Day k of a month lies k - 1 days after its first. */
  lemma DayOfMonthNumber(ym: YearMonth, k: int)
    requires ValidMonth(ym)
    ensures DayNumber(Date(ym.year, ym.month, k)) == DayNumber(FirstOfMonth(ym)) + k - 1
  {
  }

  /** The month k clicks of "next month" show after ym. */
  function Advance(ym: YearMonth, k: nat): (r: YearMonth)
    requires ValidMonth(ym)
    ensures ValidMonth(r) && MonthIndex(r) == MonthIndex(ym) + k
  {
    if k == 0 then ym else NextMonth(Advance(ym, k - 1))
  }

  /** The month n > 0 clicks show is one click on from the month n - 1 clicks show. */
  lemma AdvanceLast(ym: YearMonth, n: nat)
    requires ValidMonth(ym) && n > 0
    ensures Advance(ym, n) == NextMonth(Advance(ym, n - 1))
  {
  }

  /**
   * The signed number of months from `from` to `to`: how far apart the two
   * months lie in time, zero exactly for the same valid month.
   */
  function MonthsBetween(from: YearMonth, to: YearMonth): (r: int)
    ensures r == MonthIndex(to) - MonthIndex(from)
    ensures ValidMonth(from) && ValidMonth(to) ==> (r == 0 <==> from == to)
  {
    (to.year - from.year) * 12 + (to.month - from.month)
  }

  function MonthOf(d: Date): YearMonth {
    YearMonth(d.year, d.month)
  }

  /** A month's first day lies as many days after the previous month's first day as that month is long. */
  lemma NextMonthStart(ym: YearMonth)
    requires ValidMonth(ym)
    ensures DayNumber(FirstOfMonth(NextMonth(ym)))
         == DayNumber(FirstOfMonth(ym)) + DaysInMonth(ym.year, ym.month)
  {
    var next := NextMonth(ym);
    if MonthIndex(next) > MonthIndex(EpochMonth) {
      assert PreviousMonth(next) == ym;
    }
  }

  /**
   * d.setDate(x) for x >= 1: day x counted from the first of d's month,
   * rolling over into the following months (and years) when x exceeds the
   * length of the month.
   */
  function SetDate(d: Date, x: int): (r: Date)
    requires 0 <= d.month < 12 && x >= 1
    ensures ValidDate(r)
    ensures DayNumber(r) == DayNumber(FirstOfMonth(MonthOf(d))) + x - 1
    decreases x
  {
    if x <= DaysInMonth(d.year, d.month) then Date(d.year, d.month, x)
    else
      var next := NextMonth(MonthOf(d));
      NextMonthStart(MonthOf(d));
      SetDate(FirstOfMonth(next), x - DaysInMonth(d.year, d.month))
  }

  /** currentDate.setDate(currentDate.getDate() + k): the date k days later. */
  function AddDays(d: Date, k: nat): (r: Date)
    requires ValidDate(d)
    ensures ValidDate(r)
    ensures DayNumber(r) == DayNumber(d) + k
  {
    SetDate(d, d.day + k)
  }

  /** new Date(y, m + 1, 0): the last day of month m of year y. */
  function LastDayOfMonth(ym: YearMonth): (r: Date)
    requires ValidMonth(ym)
    ensures ValidDate(r) && MonthOf(r) == ym
    ensures DayNumber(r) + 1 == DayNumber(FirstOfMonth(NextMonth(ym)))
  {
    NextMonthStart(ym);
    Date(ym.year, ym.month, DaysInMonth(ym.year, ym.month))
  }

  /** A month is determined by its position in time. */
  lemma MonthIndexInjective(a: YearMonth, b: YearMonth)
    requires ValidMonth(a) && ValidMonth(b) && MonthIndex(a) == MonthIndex(b)
    ensures a == b
  {
    if a.year < b.year {
      assert false;
    } else if b.year < a.year {
      assert false;
    }
  }

  /** A later month starts no earlier than the end of an earlier one. */
  lemma {:induction false} MonthStartIncreasing(a: YearMonth, b: YearMonth)
    requires ValidMonth(a) && ValidMonth(b) && MonthIndex(a) < MonthIndex(b)
    ensures MonthStart(a) + DaysInMonth(a.year, a.month) <= MonthStart(b)
    decreases MonthIndex(b) - MonthIndex(a)
  {
    NextMonthStart(a);
    if MonthIndex(NextMonth(a)) < MonthIndex(b) {
      MonthStartIncreasing(NextMonth(a), b);
    } else {
      MonthIndexInjective(NextMonth(a), b);
    }
  }

  /**
   * Distinct valid dates have distinct day counts, so the day count (and with
   * it the Date's time value) determines the date.
   */
  lemma {:induction false} DayNumberInjective(d1: Date, d2: Date)
    requires ValidDate(d1) && ValidDate(d2)
    requires DayNumber(d1) == DayNumber(d2)
    ensures d1 == d2
  {
    var m1 := MonthOf(d1);
    var m2 := MonthOf(d2);
    if MonthIndex(m1) < MonthIndex(m2) {
      MonthStartIncreasing(m1, m2);
      assert false;
    } else if MonthIndex(m2) < MonthIndex(m1) {
      MonthStartIncreasing(m2, m1);
      assert false;
    } else {
      MonthIndexInjective(m1, m2);
    }
  }

  /** Each click of "next month" moves one month further from the start. */
  lemma {:induction false} MonthsBetweenAdvance(ym: YearMonth, k: nat)
    requires ValidMonth(ym)
    ensures MonthsBetween(ym, Advance(ym, k)) == k
  {
    if k > 0 {
      MonthsBetweenAdvance(ym, k - 1);
    }
  }

  /** Clicking "next month" as many times as the month difference reaches the target month. */
  lemma {:induction false} AdvanceByMonthsBetween(from: YearMonth, to: YearMonth)
    requires ValidMonth(from) && ValidMonth(to)
    requires MonthsBetween(from, to) >= 0
    ensures Advance(from, MonthsBetween(from, to)) == to
    decreases MonthsBetween(from, to)
  {
    if MonthsBetween(from, to) > 0 {
      var prev := PreviousMonth(to);
      AdvanceByMonthsBetween(from, prev);
    }
  }

  /** A valid date lies between the first of its month and the first of the next month. */
  lemma DateWithinMonth(d: Date)
    requires ValidDate(d)
    ensures DayNumber(FirstOfMonth(MonthOf(d))) <= DayNumber(d)
    ensures DayNumber(d) < DayNumber(FirstOfMonth(NextMonth(MonthOf(d))))
  {
    NextMonthStart(MonthOf(d));
  }

  /** Later months start later. */
  lemma {:induction false} FirstOfMonthIncreasing(ym: YearMonth, a: nat, b: nat)
    requires ValidMonth(ym) && a <= b
    ensures DayNumber(FirstOfMonth(Advance(ym, a))) + 28 * (b - a) <= DayNumber(FirstOfMonth(Advance(ym, b)))
  {
    hide Advance, MonthStart;
    if a < b {
      FirstOfMonthIncreasing(ym, a, b - 1);
      AdvanceLast(ym, b);
      NextMonthStart(Advance(ym, b - 1));
    }
  }

  /** Valid dates less than four weeks apart lie in the same month or in consecutive months. */
  lemma NearDatesNearMonths(a: Date, b: Date)
    requires ValidDate(a) && ValidDate(b)
    requires DayNumber(a) <= DayNumber(b) < DayNumber(a) + 28
    ensures 0 <= MonthsBetween(MonthOf(a), MonthOf(b)) <= 1
  {
    var ma := MonthOf(a);
    var mb := MonthOf(b);
    if MonthIndex(mb) < MonthIndex(ma) {
      MonthStartIncreasing(mb, ma);
      assert false;
    } else if MonthIndex(mb) > MonthIndex(ma) + 1 {
      var n := NextMonth(ma);
      NextMonthStart(ma);
      MonthStartIncreasing(n, mb);
      assert false;
    }
  }

  /**
   * Two months no more than eleven months after a common month, with the
   * same month number, are the same month.
   */
  lemma SameMonthNumberWithinAYear(from: YearMonth, a: YearMonth, b: YearMonth)
    requires ValidMonth(a) && ValidMonth(b) && a.month == b.month
    requires 0 <= MonthsBetween(from, a) < 12 && 0 <= MonthsBetween(from, b) < 12
    ensures a == b
  {
    if a.year < b.year {
      assert false;
    } else if b.year < a.year {
      assert false;
    }
  }
}
