/**
 * The price-collection loop of scrapeHotelData: one result per generated
 * date pair, in the order of the pairs. The pair that repeats the initial
 * search gets the price already read for it; every other pair gets the
 * price read after selecting its dates, or a failure marker.
 */
module PriceCollection {
  import opened Dates
  import opened FridayPairs
  import opened InitialSearch

  /** One entry of priceResults. */
  datatype PriceResult = PriceResult(checkIn: Date, checkOut: Date, price: string)

  /** The price recorded when the dates of a pair could not be selected. */
  const FailedToGetPrice := "Failed to get price"

  /**
   * The test that skips a pair: its check-in and check-out days of the month
   * and its check-in month are those of the initial search. A pair with the
   * initial search's dates passes it, and a pair that passes it with a
   * check-in in the initial check-in's year has the initial check-in.
   */
  predicate MatchesInitialSearch(p: DatePair, s: InitialDates): (r: bool)
    ensures (&& WeekLong(p) && p.checkIn == s.checkInDateObj && p.checkOut == s.checkOutDateObj
             && s.checkInDate == s.checkInDateObj.day && s.checkOutDate == s.checkOutDateObj.day) ==> r
    ensures (&& r && WeekLong(p) && s.checkInDate == s.checkInDateObj.day
             && p.checkIn.year == s.checkInDateObj.year) ==> p.checkIn == s.checkInDateObj
  {
    p.checkInDate == s.checkInDate && p.checkOutDate == s.checkOutDate && p.checkInMonth == s.checkInDateObj.month
  }

  /**
   * The loop over allDatePairs. selectDates(i) is whether selecting the dates
   * of pair i on the results page succeeded, extractPrice(i) the price then
   * read; neither is consulted for a skipped pair.
   */
  method CollectPrices(pairs: seq<DatePair>, initial: InitialDates, firstPrice: string,
                       selectDates: nat -> bool, extractPrice: nat -> string)
    returns (priceResults: seq<PriceResult>)
    ensures |priceResults| == |pairs|
    ensures forall i :: 0 <= i < |pairs| ==>
      priceResults[i].checkIn == pairs[i].checkIn && priceResults[i].checkOut == pairs[i].checkOut
    ensures forall i :: 0 <= i < |pairs| && MatchesInitialSearch(pairs[i], initial) ==>
      priceResults[i].price == firstPrice
    ensures forall i :: 0 <= i < |pairs| && !MatchesInitialSearch(pairs[i], initial) && selectDates(i) ==>
      priceResults[i].price == extractPrice(i)
    ensures forall i :: 0 <= i < |pairs| && !MatchesInitialSearch(pairs[i], initial) && !selectDates(i) ==>
      priceResults[i].price == FailedToGetPrice
  {
    priceResults := [];
    for i := 0 to |pairs|
      invariant |priceResults| == i
      invariant forall k :: 0 <= k < i ==>
        priceResults[k].checkIn == pairs[k].checkIn && priceResults[k].checkOut == pairs[k].checkOut
      invariant forall k :: 0 <= k < i && MatchesInitialSearch(pairs[k], initial) ==>
        priceResults[k].price == firstPrice
      invariant forall k :: 0 <= k < i && !MatchesInitialSearch(pairs[k], initial) && selectDates(k) ==>
        priceResults[k].price == extractPrice(k)
      invariant forall k :: 0 <= k < i && !MatchesInitialSearch(pairs[k], initial) && !selectDates(k) ==>
        priceResults[k].price == FailedToGetPrice
    {
      var datePair := pairs[i];
      if MatchesInitialSearch(datePair, initial) {
        priceResults := priceResults + [PriceResult(datePair.checkIn, datePair.checkOut, firstPrice)];
        continue;
      }
      var dateSelectionSuccess := selectDates(i);
      if dateSelectionSuccess {
        var price := extractPrice(i);
        priceResults := priceResults + [PriceResult(datePair.checkIn, datePair.checkOut, price)];
      } else {
        priceResults := priceResults + [PriceResult(datePair.checkIn, datePair.checkOut, FailedToGetPrice)];
      }
    }
  }

  /**
   * Over the generated list, the skip fires for exactly one pair: the one
   * whose check-in is the initial search's check-in.
   */
  lemma SkipFiresOnce(today: Date)
    requires ValidDate(today)
    ensures var pairs := SixMonthPairs(today);
      var initial := InitialSearchDates(today);
      exists i :: 0 <= i < |pairs| && MatchesInitialSearch(pairs[i], initial) && pairs[i].checkIn == initial.checkInDateObj
        && forall j :: 0 <= j < |pairs| && MatchesInitialSearch(pairs[j], initial) ==> j == i
  {
    hide SixMonthPairs, PairsForMonths, MonthPairs, Advance, MonthStart, SetDate, WeekdayOf, InitialSearchDates, PairStartingOn, FridaysFrom;
    var pairs := SixMonthPairs(today);
    var initial := InitialSearchDates(today);
    var c := initial.checkInDateObj;
    var start := MonthOf(today);
    InitialCheckInListed(today);
    var i :| 0 <= i < |pairs| && pairs[i].checkIn == c;
    SixMonthPairsAreFridayWeeks(today);
    NearDatesNearMonths(today, c);
    assert GeneratedPair(pairs[i], start, 6);
    DayNumberInjective(pairs[i].checkOut, initial.checkOutDateObj);
    assert MatchesInitialSearch(pairs[i], initial);
    forall j | 0 <= j < |pairs| && MatchesInitialSearch(pairs[j], initial)
      ensures j == i
    {
      var d := pairs[j].checkIn;
      assert GeneratedPair(pairs[j], start, 6);
      SameMonthNumberWithinAYear(start, MonthOf(d), MonthOf(c));
      assert d == c;
      SixMonthPairsCheckInsDistinct(today, i, j);
    }
  }
}
