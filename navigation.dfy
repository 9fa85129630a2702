/**
 * Moving the results-page date picker to a target month: choosing the year
 * of the check-in and check-out months, counting the "next month" clicks
 * between the month the picker shows and the target, and clicking that many
 * times unless a click fails.
 */
module Navigation {
  import opened Dates
  import opened CalendarPanels
  import opened FridayPairs

  /**
   * The year selectDatesOnResultsPage navigates to for a check-in month:
   * next year when the month number is below today's, this year otherwise.
   * That is the first occurrence of the month from today's month on.
   */
  function CheckInYear(checkInMonth: int, today: Date): (y: int)
    requires 0 <= checkInMonth < 12 && ValidDate(today)
    ensures 0 <= MonthsBetween(MonthOf(today), YearMonth(y, checkInMonth)) < 12
  {
    if checkInMonth < today.month then today.year + 1 else today.year
  }

  /** No other year puts the check-in month within the twelve months from today's month. */
  lemma CheckInYearIsOnlyChoice(checkInMonth: int, today: Date, y: int)
    requires 0 <= checkInMonth < 12 && ValidDate(today)
    requires 0 <= MonthsBetween(MonthOf(today), YearMonth(y, checkInMonth)) < 12
    ensures y == CheckInYear(checkInMonth, today)
  {
    var z := CheckInYear(checkInMonth, today);
    SameMonthNumberWithinAYear(MonthOf(today), YearMonth(y, checkInMonth), YearMonth(z, checkInMonth));
  }

  /**
   * The year of the check-out month, navigated to when it differs from the
   * check-in month: the year after the check-in's when the month number is
   * below the check-in month's, the check-in's year otherwise. That is the
   * first occurrence of the month from the check-in month on.
   */
  function CheckOutYear(checkOutMonth: int, checkInMonth: int, targetYear: int): (y: int)
    requires 0 <= checkOutMonth < 12 && 0 <= checkInMonth < 12
    ensures 0 <= MonthsBetween(YearMonth(targetYear, checkInMonth), YearMonth(y, checkOutMonth)) < 12
  {
    if checkOutMonth < checkInMonth then targetYear + 1 else targetYear
  }

  /** No other year puts the check-out month within the twelve months from the check-in month. */
  lemma CheckOutYearIsOnlyChoice(checkOutMonth: int, checkInMonth: int, targetYear: int, y: int)
    requires 0 <= checkOutMonth < 12 && 0 <= checkInMonth < 12
    requires 0 <= MonthsBetween(YearMonth(targetYear, checkInMonth), YearMonth(y, checkOutMonth)) < 12
    ensures y == CheckOutYear(checkOutMonth, checkInMonth, targetYear)
  {
    var z := CheckOutYear(checkOutMonth, checkInMonth, targetYear);
    SameMonthNumberWithinAYear(YearMonth(targetYear, checkInMonth), YearMonth(y, checkOutMonth), YearMonth(z, checkOutMonth));
  }

  /**
   * monthsToNavigate is the one number of "next month" clicks that takes the
   * shown month to the target; a negative count means no number of clicks does.
   */
  lemma ClicksToReachTarget(current: YearMonth, target: YearMonth, k: nat)
    requires ValidMonth(current) && ValidMonth(target)
    ensures Advance(current, k) == target <==> k == MonthsBetween(current, target)
  {
    MonthsBetweenAdvance(current, k);
    if k == MonthsBetween(current, target) {
      AdvanceByMonthsBetween(current, target);
    }
  }

  /**
   * navigateToTargetMonth. The picker's panels and today's date stand for the
   * page and the clock; nextMonth(k) is the outcome of the k-th call of
   * navigateToNextMonth. Returns whether it succeeded, how many next-month
   * calls it made, and the month the picker then shows, each successful call
   * moving it on by one month.
   */
  method NavigateToTargetMonth(panels: seq<Panel>, today: Date, targetMonth: int, targetYear: int, nextMonth: nat -> bool)
    returns (success: bool, calls: nat, ghost shown: YearMonth)
    requires ValidDate(today)
    ensures MonthsBetween(ActiveCalendar(panels, today), YearMonth(targetYear, targetMonth)) <= 0 ==> success && calls == 0
    ensures MonthsBetween(ActiveCalendar(panels, today), YearMonth(targetYear, targetMonth)) > 0 ==>
      (success <==> forall k :: 0 <= k < MonthsBetween(ActiveCalendar(panels, today), YearMonth(targetYear, targetMonth)) ==> nextMonth(k))
    ensures success ==> calls == if MonthsBetween(ActiveCalendar(panels, today), YearMonth(targetYear, targetMonth)) > 0
      then MonthsBetween(ActiveCalendar(panels, today), YearMonth(targetYear, targetMonth)) else 0
    ensures !success ==> 1 <= calls && !nextMonth(calls - 1) && forall k :: 0 <= k < calls - 1 ==> nextMonth(k)
    ensures ValidMonth(ActiveCalendar(panels, today))
    ensures shown == Advance(ActiveCalendar(panels, today), if success then calls else calls - 1)
    ensures success && 0 <= targetMonth < 12 && MonthsBetween(ActiveCalendar(panels, today), YearMonth(targetYear, targetMonth)) >= 0
      ==> shown == YearMonth(targetYear, targetMonth)
  {
    hide ActiveCalendar, Advance;
    var current := GetCurrentMonth(panels, today);
    var monthsToNavigate := (targetYear - current.year) * 12 + (targetMonth - current.month);
    assert monthsToNavigate == MonthsBetween(current, YearMonth(targetYear, targetMonth));
    calls := 0;
    shown := current;
    PairsForMonthsNone(current);
    if monthsToNavigate < 0 {
      // Counted as success although the picker stays where it is.
      success := true;
      return;
    }
    if monthsToNavigate == 0 {
      success := true;
      if 0 <= targetMonth < 12 {
        AdvanceByMonthsBetween(current, YearMonth(targetYear, targetMonth));
      }
      return;
    }
    for i := 0 to monthsToNavigate
      invariant calls == i
      invariant forall k :: 0 <= k < i ==> nextMonth(k)
      invariant shown == Advance(current, i)
    {
      var ok := nextMonth(i);
      calls := calls + 1;
      if !ok {
        success := false;
        return;
      }
      AdvanceLast(current, i + 1);
      shown := NextMonth(shown);
    }
    success := true;
    if 0 <= targetMonth < 12 {
      AdvanceByMonthsBetween(current, YearMonth(targetYear, targetMonth));
    }
  }

  /**
   * The year choices of selectDatesOnResultsPage find pair p's own months:
   * the check-in year is the check-in date's year, and the check-out month
   * is the check-in month or the one after it, in which case the check-out
   * year is the check-out date's year.
   */
  ghost predicate NavigatesToOwnMonths(p: DatePair, today: Date) {
    && ValidDate(today)
    && ValidDate(p.checkIn) && ValidDate(p.checkOut)
    && p.checkInMonth == p.checkIn.month && p.checkOutMonth == p.checkOut.month
    && CheckInYear(p.checkInMonth, today) == p.checkIn.year
    && (p.checkOutMonth == p.checkInMonth ==> MonthOf(p.checkOut) == MonthOf(p.checkIn))
    && (p.checkOutMonth != p.checkInMonth ==>
          && CheckOutYear(p.checkOutMonth, p.checkInMonth, p.checkIn.year) == p.checkOut.year
          && MonthOf(p.checkOut) == NextMonth(MonthOf(p.checkIn)))
  }

  /**
   * For a pair of the kind the generator lists, the year choices find the
   * pair's own months: the check-in year is the check-in date's year, the
   * check-out month is the check-in month or the one after it, and when they
   * differ the check-out year is the check-out date's year, one month on.
   */
  lemma PairTargets(p: DatePair, today: Date)
    requires ValidDate(today) && GeneratedPair(p, MonthOf(today), 6)
    ensures NavigatesToOwnMonths(p, today)
  {
    hide DayNumber, MonthStart, SetDate, WeekdayOf, Weekday, DaysInMonth, CheckInYear, CheckOutYear;
    assert YearMonth(p.checkIn.year, p.checkInMonth) == MonthOf(p.checkIn);
    CheckInYearIsOnlyChoice(p.checkInMonth, today, p.checkIn.year);
    NearDatesNearMonths(p.checkIn, p.checkOut);
    if p.checkOutMonth == p.checkInMonth {
      SameMonthNumberWithinAYear(MonthOf(p.checkIn), MonthOf(p.checkIn), MonthOf(p.checkOut));
    } else {
      CheckOutYearIsOnlyChoice(p.checkOutMonth, p.checkInMonth, p.checkIn.year, p.checkOut.year);
      var n := NextMonth(MonthOf(p.checkIn));
      MonthIndexInjective(n, MonthOf(p.checkOut));
    }
  }

  /** Every pair the generator lists navigates to its own check-in and check-out months. */
  lemma GeneratedPairTargets(today: Date, i: int)
    requires ValidDate(today) && 0 <= i < |SixMonthPairs(today)|
    ensures NavigatesToOwnMonths(SixMonthPairs(today)[i], today)
  {
    hide SixMonthPairs, PairsForMonths, MonthPairs, Advance, DayNumber, MonthStart, SetDate, WeekdayOf, Weekday, NavigatesToOwnMonths;
    SixMonthPairsAreFridayWeeks(today);
    PairTargets(SixMonthPairs(today)[i], today);
  }
}
