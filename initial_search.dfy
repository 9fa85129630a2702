/**
 * The dates of the first search, made on the hotel page before the results
 * page is reached: check in on the first Friday from today on (today itself
 * when today is a Friday) and check out seven days later.
 */
module InitialSearch {
  import opened Dates
  import opened FridayPairs

  /** j days after a day with weekday w comes a Friday. */
  predicate FridayAfter(w: int, j: int) {
    (w + j) % 7 == Friday
  }

  /**
   * daysUntilFriday: (5 - currentDay + 7) % 7, replaced by 7 when it is 0
   * and today is not a Friday. The result is below 7 and lands on a Friday,
   * so the replacement never happens.
   */
  function DaysUntilFriday(currentDay: int): (d: int)
    requires 0 <= currentDay < 7
    ensures 0 <= d < 7
    ensures FridayAfter(currentDay, d)
    ensures forall j :: 0 <= j < d ==> !FridayAfter(currentDay, j)
  {
    var d := (Friday - currentDay + 7) % 7;
    if d == 0 && currentDay != Friday then 7 else d
  }

  /** The check-in and check-out Date objects and their day-of-month numbers. */
  datatype InitialDates = InitialDates(checkInDateObj: Date, checkOutDateObj: Date, checkInDate: int, checkOutDate: int)

  /** The weekdays of the days from n on follow the weekday numbers from n's on, modulo 7. */
  lemma NextFridayFrom(n: int, d: int)
    requires 0 <= d < 7
    requires FridayAfter(WeekdayOf(n), d)
    requires forall j :: 0 <= j < d ==> !FridayAfter(WeekdayOf(n), j)
    ensures WeekdayOf(n + d) == Friday
    ensures forall m :: n <= m < n + d ==> WeekdayOf(m) != Friday
  {
    WeekdayShift(n, d);
    forall m | n <= m < n + d
      ensures WeekdayOf(m) != Friday
    {
      WeekdayShift(n, m - n);
      assert n + (m - n) == m;
      assert !FridayAfter(WeekdayOf(n), m - n);
    }
  }

  /**
   * The dates of the initial search on the given day: the check-in is the
   * first Friday on or after today, fewer than seven days on, and the
   * check-out the day seven days after it.
   */
  function InitialSearchDates(today: Date): (s: InitialDates)
    requires ValidDate(today)
    ensures ValidDate(s.checkInDateObj) && ValidDate(s.checkOutDateObj)
    ensures Weekday(s.checkInDateObj) == Friday
    ensures DayNumber(today) <= DayNumber(s.checkInDateObj) < DayNumber(today) + 7
    ensures forall n :: DayNumber(today) <= n < DayNumber(s.checkInDateObj) ==> WeekdayOf(n) != Friday
    ensures DayNumber(s.checkOutDateObj) == DayNumber(s.checkInDateObj) + 7
    ensures s.checkInDate == s.checkInDateObj.day && s.checkOutDate == s.checkOutDateObj.day
  {
    var daysUntilFriday := DaysUntilFriday(Weekday(today));
    NextFridayFrom(DayNumber(today), daysUntilFriday);
    var checkInDateObj := AddDays(today, daysUntilFriday);
    var checkOutDateObj := AddDays(checkInDateObj, 7);
    InitialDates(checkInDateObj, checkOutDateObj, checkInDateObj.day, checkOutDateObj.day)
  }

  /**
   * The initial check-in is one of the generated check-ins: it falls in
   * today's month or the next one, both among the six months listed.
   */
  lemma InitialCheckInListed(today: Date)
    requires ValidDate(today)
    ensures exists i :: 0 <= i < |SixMonthPairs(today)| && SixMonthPairs(today)[i].checkIn == InitialSearchDates(today).checkInDateObj
  {
    var c := InitialSearchDates(today).checkInDateObj;
    NearDatesNearMonths(today, c);
    SixMonthPairsComplete(today, c);
  }
}
