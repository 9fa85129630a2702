/**
 * The Friday-to-Friday date-pair generator: for each of the six consecutive
 * months starting at today's month, every Friday of the month is a check-in
 * and the day seven days later its check-out.
 */
module FridayPairs {
  import opened Dates

  /**
   * One element of the generated list: the two Date objects and the
   * day-of-month and month numbers read from them.
   */
  datatype DatePair = DatePair(
    checkIn: Date, checkOut: Date,
    checkInDate: int, checkOutDate: int,
    checkInMonth: int, checkOutMonth: int)

  /** Days from a day with weekday w to the first Friday on or after it. */
  function DaysToFriday(w: int): (d: int)
    requires 0 <= w < 7
    ensures 0 <= d < 7
  {
    if w <= Friday then Friday - w else Friday + 7 - w
  }

  /** The day of the month of the first Friday of ym. */
  function FirstFriday(ym: YearMonth): (f: int)
    requires ValidMonth(ym)
    ensures 1 <= f <= 7 && f <= DaysInMonth(ym.year, ym.month)
    ensures Weekday(Date(ym.year, ym.month, f)) == Friday
    ensures forall k :: 1 <= k < f ==> Weekday(Date(ym.year, ym.month, k)) != Friday
  {
    FirstFridayIsEarliest(ym);
    1 + DaysToFriday(Weekday(FirstOfMonth(ym)))
  }

  lemma FirstFridayIsEarliest(ym: YearMonth)
    requires ValidMonth(ym)
    ensures var f := 1 + DaysToFriday(Weekday(FirstOfMonth(ym)));
      && Weekday(Date(ym.year, ym.month, f)) == Friday
      && forall k :: 1 <= k < f ==> Weekday(Date(ym.year, ym.month, k)) != Friday
  {
    hide DayNumber, WeekdayOf;
    var n := DayNumber(FirstOfMonth(ym));
    var f := 1 + DaysToFriday(WeekdayOf(n));
    DayOfMonthNumber(ym, f);
    WeekdayStep(n, f - 1);
    forall k | 1 <= k < f
      ensures Weekday(Date(ym.year, ym.month, k)) != Friday
    {
      DayOfMonthNumber(ym, k);
      WeekdayStep(n, k - 1);
    }
  }

  /**
   * The pair the generator records for check-in day d. It is a week long,
   * and its check-out falls in the same month or, rolling over, in the next.
   */
  function PairStartingOn(d: Date): (p: DatePair)
    requires ValidDate(d)
    ensures p.checkIn == d && WeekLong(p)
    ensures MonthOf(p.checkOut) == MonthOf(d) || MonthOf(p.checkOut) == NextMonth(MonthOf(d))
  {
    var out := SetDate(d, d.day + 7);
    var dim := DaysInMonth(d.year, d.month);
    assert d.day + 7 > dim ==>
      var next := NextMonth(MonthOf(d));
      SetDate(FirstOfMonth(next), d.day + 7 - dim) == Date(next.year, next.month, d.day + 7 - dim);
    DatePair(d, out, d.day, out.day, d.month, out.month)
  }

  /**
   * The pairs for check-in days k, k + 7, k + 14, ... that still lie in ym:
   * one for each such day up to the month's last.
   */
  function FridaysFrom(ym: YearMonth, k: int): (r: seq<DatePair>)
    requires ValidMonth(ym) && k >= 1
    ensures |r| == if k > DaysInMonth(ym.year, ym.month) then 0 else (DaysInMonth(ym.year, ym.month) - k) / 7 + 1
    decreases DaysInMonth(ym.year, ym.month) + 1 - k
  {
    hide PairStartingOn;
    if k > DaysInMonth(ym.year, ym.month) then []
    else [PairStartingOn(Date(ym.year, ym.month, k))] + FridaysFrom(ym, k + 7)
  }

  /** The pairs the generator produces for one month: four or five, one per Friday. */
  function MonthPairs(ym: YearMonth): (r: seq<DatePair>)
    requires ValidMonth(ym)
    ensures 4 <= |r| <= 5
  {
    FridaysFrom(ym, FirstFriday(ym))
  }

  /** The month the generator visits at offset k from start, as the source computes it. */
  function MonthAtOffset(start: YearMonth, k: nat): (r: YearMonth)
    requires ValidMonth(start)
    ensures ValidMonth(r) && MonthIndex(r) == MonthIndex(start) + k
  {
    var q := (start.month + k) / 12;
    assert start.month + k == 12 * q + (start.month + k) % 12;
    YearMonth(start.year + (start.month + k) / 12, (start.month + k) % 12)
  }

  /** The concatenation parts(0) + parts(1) + ... + parts(n - 1). */
  function Concat<T>(parts: nat -> seq<T>, n: nat): seq<T> {
    if n == 0 then [] else Concat(parts, n - 1) + parts(n - 1)
  }

  /** The pairs of the first n months from start, in order. */
  function PairsForMonths(start: YearMonth, n: nat): seq<DatePair>
    requires ValidMonth(start)
  {
    Concat((i: nat) => MonthPairs(Advance(start, i)), n)
  }

  /**
   * One turn of the generator's month loop, which computes the month at
   * offset k with % and /, extends the pairs for k months to those for k + 1.
   */
  lemma NextMonthAppended(start: YearMonth, k: nat, before: seq<DatePair>, after: seq<DatePair>)
    requires ValidMonth(start)
    requires before == PairsForMonths(start, k)
    requires after == before + MonthPairs(YearMonth(start.year + (start.month + k) / 12, (start.month + k) % 12))
    ensures after == PairsForMonths(start, k + 1)
  {
    hide MonthPairs;
    var ym := YearMonth(start.year + (start.month + k) / 12, (start.month + k) % 12);
    assert ym == MonthAtOffset(start, k);
    MonthAtOffsetIsAdvance(start, k);
    assert ym == Advance(start, k);
    PairsForMonthsStep(start, k);
  }

  /** No months, no pairs; the start month is reached with no click. */
  lemma PairsForMonthsNone(start: YearMonth)
    requires ValidMonth(start)
    ensures PairsForMonths(start, 0) == [] && Advance(start, 0) == start
  {
  }

  /** The pairs for n > 0 months end with those of the last of them. */
  lemma PairsForMonthsLast(start: YearMonth, n: nat)
    requires ValidMonth(start) && n > 0
    ensures PairsForMonths(start, n) == PairsForMonths(start, n - 1) + MonthPairs(Advance(start, n - 1))
  {
    hide MonthPairs, Advance, PairsForMonths;
    PairsForMonthsStep(start, n - 1);
  }

  /** Moving on to one more month appends that month's pairs. */
  lemma PairsForMonthsStep(start: YearMonth, n: nat)
    requires ValidMonth(start)
    ensures PairsForMonths(start, n + 1) == PairsForMonths(start, n) + MonthPairs(Advance(start, n))
  {
    hide MonthPairs, Advance;
  }

  /** The list getFridayToFridayDatesFor6Months returns on the given day: 24 to 30 pairs. */
  function SixMonthPairs(today: Date): (r: seq<DatePair>)
    requires ValidDate(today)
    ensures 24 <= |r| <= 30
  {
    PairsForMonthsCount(MonthOf(today), 6);
    PairsForMonths(MonthOf(today), 6)
  }

  /**
   * getFridayToFridayDatesFor6Months, with today's date as a parameter: for
   * each of the six months from today's month on, it appends that month's
   * Friday-to-Friday pairs to the list.
   */
  method GetFridayToFridayDatesFor6Months(today: Date) returns (dates: seq<DatePair>)
    requires ValidDate(today)
    ensures dates == SixMonthPairs(today)
  {
    hide MonthPairs;
    dates := [];
    var startMonth := today.month;
    var startYear := today.year;
    ghost var start := MonthOf(today);
    for monthOffset := 0 to 6
      invariant dates == PairsForMonths(start, monthOffset)
    {
      var currentMonth := (startMonth + monthOffset) % 12;
      var currentYear := startYear + (startMonth + monthOffset) / 12;
      ghost var before := dates;
      dates := AppendMonthPairs(dates, currentYear, currentMonth);
      NextMonthAppended(start, monthOffset, before, dates);
    }
  }

  /**
   * The body of the generator's month loop: step a date forward from the
   * first of the month to its first Friday (giving up should it pass the
   * month's last day), then push a pair for it and for every seventh day
   * after it while the date is not past the month's last day.
   */
  method AppendMonthPairs(dates0: seq<DatePair>, currentYear: int, currentMonth: int)
    returns (dates: seq<DatePair>)
    requires 0 <= currentMonth < 12
    ensures dates == dates0 + MonthPairs(YearMonth(currentYear, currentMonth))
  {
    hide DayNumber, WeekdayOf, MonthStart, WeekLong, FridaysFrom, PairStartingOn;
    ghost var ym := YearMonth(currentYear, currentMonth);
    var firstDayOfMonth := Date(currentYear, currentMonth, 1);
    var lastDayOfMonth := LastDayOfMonth(YearMonth(currentYear, currentMonth));

    // Step to the first Friday of the month.
    var currentDate := firstDayOfMonth;
    DayOfMonthNumber(ym, DaysInMonth(currentYear, currentMonth));
    while Weekday(currentDate) != Friday
      invariant MonthOf(currentDate) == ym
      invariant 1 <= currentDate.day <= FirstFriday(ym)
      decreases FirstFriday(ym) - currentDate.day
    {
      currentDate := SetDate(currentDate, currentDate.day + 1);
      DayOfMonthNumber(ym, currentDate.day);
      if DayNumber(currentDate) > DayNumber(lastDayOfMonth) {
        break;
      }
    }
    assert currentDate == Date(currentYear, currentMonth, FirstFriday(ym));
    dates := PushFridays(dates0, currentDate, lastDayOfMonth);
  }

  /**
   * The pair-pushing loop of the month body: from check-in date firstFriday
   * on, push a pair for it and for every seventh day after it while the date
   * is not past the month's last day.
   */
  method PushFridays(dates0: seq<DatePair>, firstFriday: Date, lastDayOfMonth: Date)
    returns (dates: seq<DatePair>)
    requires ValidDate(firstFriday) && lastDayOfMonth == LastDayOfMonth(MonthOf(firstFriday))
    ensures dates == dates0 + FridaysFrom(MonthOf(firstFriday), firstFriday.day)
  {
    hide DayNumber, WeekdayOf, MonthStart, WeekLong, FridaysFrom;
    ghost var ym := MonthOf(firstFriday);
    ghost var dim := DaysInMonth(ym.year, ym.month);
    ghost var firstDayOfMonth := FirstOfMonth(ym);
    dates := dates0;
    var currentDate := firstFriday;
    ghost var k := currentDate.day;
    DayOfMonthNumber(ym, k);
    DayOfMonthNumber(ym, dim);
    while DayNumber(currentDate) <= DayNumber(lastDayOfMonth)
      invariant ValidDate(currentDate)
      invariant k >= 1
      invariant DayNumber(currentDate) == DayNumber(firstDayOfMonth) + k - 1
      invariant k <= dim ==> currentDate == Date(ym.year, ym.month, k)
      invariant dates + FridaysFrom(ym, k) == dates0 + FridaysFrom(ym, firstFriday.day)
      decreases dim + 1 - k
    {
      var checkIn := currentDate;
      var checkOut := SetDate(currentDate, currentDate.day + 7);
      ghost var before := dates;
      dates := dates + [DatePair(checkIn, checkOut, checkIn.day, checkOut.day, checkIn.month, checkOut.month)];
      assert dates == before + [PairStartingOn(checkIn)];
      FridaysFromNext(ym, k);
      currentDate := SetDate(currentDate, currentDate.day + 7);
      k := k + 7;
      assert dates + FridaysFrom(ym, k) == before + FridaysFrom(ym, k - 7);
    }
    FridaysFromPast(ym, k);
  }

  /** From a day k within the month, the pairs start with the one for day k. */
  lemma FridaysFromNext(ym: YearMonth, k: int)
    requires ValidMonth(ym) && 1 <= k <= DaysInMonth(ym.year, ym.month)
    ensures FridaysFrom(ym, k) == [PairStartingOn(Date(ym.year, ym.month, k))] + FridaysFrom(ym, k + 7)
  {
    hide PairStartingOn;
  }

  /** From a day past the month's end, there are no pairs. */
  lemma FridaysFromPast(ym: YearMonth, k: int)
    requires ValidMonth(ym) && k > DaysInMonth(ym.year, ym.month)
    ensures FridaysFrom(ym, k) == []
  {
  }

  /**
   * A well-formed pair: both dates valid, check-out exactly seven days after
   * check-in, and the stored day and month numbers those of the two dates.
   */
  ghost predicate WeekLong(p: DatePair) {
    && ValidDate(p.checkIn) && ValidDate(p.checkOut)
    && DayNumber(p.checkOut) == DayNumber(p.checkIn) + 7
    && p.checkInDate == p.checkIn.day && p.checkInMonth == p.checkIn.month
    && p.checkOutDate == p.checkOut.day && p.checkOutMonth == p.checkOut.month
  }

  /** The pairs from day k on are those for days k, k + 7, ..., in order. */
  lemma {:induction false} FridaysFromElements(ym: YearMonth, k: int)
    requires ValidMonth(ym) && k >= 1
    ensures forall i :: 0 <= i < |FridaysFrom(ym, k)| ==>
      k + 7 * i <= DaysInMonth(ym.year, ym.month) &&
      FridaysFrom(ym, k)[i] == PairStartingOn(Date(ym.year, ym.month, k + 7 * i))
    decreases DaysInMonth(ym.year, ym.month) + 1 - k
  {
    hide PairStartingOn, SetDate, DayNumber, MonthStart, WeekLong;
    if k <= DaysInMonth(ym.year, ym.month) {
      FridaysFromElements(ym, k + 7);
      var rest := FridaysFrom(ym, k + 7);
      assert FridaysFrom(ym, k) == [PairStartingOn(Date(ym.year, ym.month, k))] + rest;
      forall i | 1 <= i < |FridaysFrom(ym, k)|
        ensures k + 7 * i <= DaysInMonth(ym.year, ym.month)
        ensures FridaysFrom(ym, k)[i] == PairStartingOn(Date(ym.year, ym.month, k + 7 * i))
      {
        assert FridaysFrom(ym, k)[i] == rest[i - 1];
        assert k + 7 + 7 * (i - 1) == k + 7 * i;
      }
    }
  }

  /**
   * The i-th Friday of a month, counting from 0: a day of the month exactly
   * for the i that have a pair (past the month's end for larger i).
   */
  function FridayOfMonth(ym: YearMonth, i: int): (d: Date)
    requires ValidMonth(ym)
    ensures MonthOf(d) == ym
    ensures 0 <= i ==> (ValidDate(d) <==> i < |MonthPairs(ym)|)
  {
    Date(ym.year, ym.month, FirstFriday(ym) + 7 * i)
  }

  /** The day count of a pair's check-in (0 for a check-in outside the months 0..11). */
  function CheckInDay(p: DatePair): int {
    if 0 <= p.checkIn.month < 12 then DayNumber(p.checkIn) else 0
  }

  lemma FridayOfMonthDay(ym: YearMonth, i: int)
    requires ValidMonth(ym)
    ensures Weekday(FridayOfMonth(ym, i)) == Friday
    ensures DayNumber(FridayOfMonth(ym, i)) == DayNumber(FridayOfMonth(ym, 0)) + 7 * i
  {
    var f := FirstFriday(ym);
    assert FridayOfMonth(ym, 0) == Date(ym.year, ym.month, f);
    var n := DayNumber(FridayOfMonth(ym, 0));
    DayOfMonthNumber(ym, f);
    DayOfMonthNumber(ym, f + 7 * i);
    assert DayNumber(FridayOfMonth(ym, i)) == n + 7 * i;
    WeekdayAfterWeeks(n, i);
  }

  /**
   * Each month contributes four or five pairs: one per Friday of the month,
   * from its first Friday on, a week apart.
   */
  lemma MonthPairsShape(ym: YearMonth)
    requires ValidMonth(ym)
    ensures forall i :: 0 <= i < |MonthPairs(ym)| ==>
      && ValidDate(FridayOfMonth(ym, i))
      && MonthPairs(ym)[i] == PairStartingOn(FridayOfMonth(ym, i))
      && Weekday(FridayOfMonth(ym, i)) == Friday
      && DayNumber(FridayOfMonth(ym, i)) == DayNumber(FridayOfMonth(ym, 0)) + 7 * i
  {
    FridaysFromElements(ym, FirstFriday(ym));
    forall i | 0 <= i < |MonthPairs(ym)|
      ensures Weekday(FridayOfMonth(ym, i)) == Friday
      ensures DayNumber(FridayOfMonth(ym, i)) == DayNumber(FridayOfMonth(ym, 0)) + 7 * i
    {
      FridayOfMonthDay(ym, i);
    }
  }

  /** The only Friday among the first seven days of a month is its first Friday. */
  lemma OnlyFridayOfFirstWeek(ym: YearMonth, j: int)
    requires ValidMonth(ym) && 1 <= j <= 7
    requires Weekday(Date(ym.year, ym.month, j)) == Friday
    ensures j == FirstFriday(ym)
  {
    var f := FirstFriday(ym);
    if j > f {
      DayOfMonthNumber(ym, f);
      DayOfMonthNumber(ym, j);
      WeekdayStep(DayNumber(Date(ym.year, ym.month, f)), j - f);
      assert false;
    }
  }

  /** A week after a month's last Friday comes the next month's first Friday. */
  lemma NextFridayAfterMonth(ym: YearMonth)
    requires ValidMonth(ym)
    ensures DayNumber(FridayOfMonth(ym, 0)) + 7 * |MonthPairs(ym)| == DayNumber(FridayOfMonth(NextMonth(ym), 0))
  {
    hide MonthStart, WeekdayOf, PairStartingOn;
    var f := FirstFriday(ym);
    var dim := DaysInMonth(ym.year, ym.month);
    var c := |MonthPairs(ym)|;
    assert c == (dim - f) / 7 + 1;
    assert 7 * (c - 1) <= dim - f < 7 * c;
    var next := NextMonth(ym);
    var j := f + 7 * c - dim;
    var n := DayNumber(Date(ym.year, ym.month, f));
    NextMonthStart(ym);
    DayOfMonthNumber(ym, f);
    DayOfMonthNumber(next, j);
    assert DayNumber(Date(next.year, next.month, j)) == n + 7 * c;
    WeekdayAfterWeeks(n, c);
    OnlyFridayOfFirstWeek(next, j);
  }

  /** The check-ins of a month's pairs run a week apart from the month's first Friday. */
  lemma MonthPairsCheckIns(ym: YearMonth)
    requires ValidMonth(ym)
    ensures forall j :: 0 <= j < |MonthPairs(ym)| ==> CheckInDay(MonthPairs(ym)[j]) == DayNumber(FridayOfMonth(ym, 0)) + 7 * j
  {
    MonthPairsShape(ym);
  }

  /** The month offsets the generator computes are "next month" steps from the start month. */
  lemma {:induction false} MonthAtOffsetIsAdvance(start: YearMonth, k: nat)
    requires ValidMonth(start)
    ensures MonthAtOffset(start, k) == Advance(start, k)
  {
    if k > 0 {
      MonthAtOffsetIsAdvance(start, k - 1);
      var q := (start.month + k - 1) / 12;
      var r := (start.month + k - 1) % 12;
      assert start.month + k - 1 == 12 * q + r;
      if r == 11 {
        assert start.month + k == 12 * (q + 1);
      } else {
        assert start.month + k == 12 * q + (r + 1);
      }
    }
  }

  /** Lengths of the parts bound the length of their concatenation. */
  lemma {:induction false} ConcatLength<T>(parts: nat -> seq<T>, n: nat, lo: nat, hi: nat)
    requires forall i :: 0 <= i < n ==> lo <= |parts(i)| <= hi
    ensures lo * n <= |Concat(parts, n)| <= hi * n
  {
    if n > 0 {
      ConcatLength(parts, n - 1, lo, hi);
    }
  }

  /** What holds of every element of every part holds of every element of the concatenation. */
  lemma {:induction false} ConcatAll<T>(parts: nat -> seq<T>, n: nat, P: T -> bool)
    requires forall m, j :: 0 <= m < n && 0 <= j < |parts(m)| ==> P(parts(m)[j])
    ensures forall i :: 0 <= i < |Concat(parts, n)| ==> P(Concat(parts, n)[i])
  {
    if n > 0 {
      ConcatAll(parts, n - 1, P);
      var before := Concat(parts, n - 1);
      forall i | 0 <= i < |Concat(parts, n)|
        ensures P(Concat(parts, n)[i])
      {
        if i < |before| {
          assert Concat(parts, n)[i] == before[i];
        } else {
          assert Concat(parts, n)[i] == parts(n - 1)[i - |before|];
        }
      }
    }
  }

  /** What the generator promises of each pair it lists for the n months from start on. */
  ghost predicate GeneratedPair(p: DatePair, start: YearMonth, n: nat) {
    && WeekLong(p)
    && Weekday(p.checkIn) == Friday
    && 0 <= MonthsBetween(start, MonthOf(p.checkIn)) < n
  }

  /** Four to five pairs per month. */
  lemma PairsForMonthsCount(start: YearMonth, n: nat)
    requires ValidMonth(start)
    ensures 4 * n <= |PairsForMonths(start, n)| <= 5 * n
  {
    var parts := (i: nat) => MonthPairs(Advance(start, i));
    forall i | 0 <= i < n
      ensures 4 <= |parts(i)| <= 5
    {
    }
    ConcatLength(parts, n, 4, 5);
  }

  /** Every pair for the first n months is a week long, from a Friday in one of those months. */
  lemma PairsForMonthsGenerated(start: YearMonth, n: nat)
    requires ValidMonth(start)
    ensures forall i :: 0 <= i < |PairsForMonths(start, n)| ==> GeneratedPair(PairsForMonths(start, n)[i], start, n)
  {
    var parts := (i: nat) => MonthPairs(Advance(start, i));
    var P := (p: DatePair) => GeneratedPair(p, start, n);
    forall m, j | 0 <= m < n && 0 <= j < |parts(m)|
      ensures P(parts(m)[j])
    {
      var ym := Advance(start, m);
      MonthsBetweenAdvance(start, m);
      MonthPairsShape(ym);
    }
    ConcatAll(parts, n, P);
  }

  /**
   * The check-ins for the first n months lie a week apart from the start
   * month's first Friday on, and the first Friday of the month after them
   * comes a week after the last.
   */
  lemma {:induction false} PairsForMonthsEnd(start: YearMonth, n: nat)
    requires ValidMonth(start)
    ensures DayNumber(FridayOfMonth(start, 0)) + 7 * |PairsForMonths(start, n)| == DayNumber(FridayOfMonth(Advance(start, n), 0))
  {
    hide MonthPairs, DayNumber, FridayOfMonth, PairsForMonths, Advance;
    if n == 0 {
      PairsForMonthsNone(start);
    } else {
      PairsForMonthsEnd(start, n - 1);
      PairsForMonthsLast(start, n);
      AdvanceLast(start, n);
      NextFridayAfterMonth(Advance(start, n - 1));
    }
  }

  lemma {:induction false} PairsForMonthsChain(start: YearMonth, n: nat)
    requires ValidMonth(start)
    ensures forall i :: 0 <= i < |PairsForMonths(start, n)| ==>
      CheckInDay(PairsForMonths(start, n)[i]) == DayNumber(FridayOfMonth(start, 0)) + 7 * i
  {
    hide MonthPairs, DayNumber, FridayOfMonth, PairsForMonths, Advance, CheckInDay;
    if n == 0 {
      PairsForMonthsNone(start);
    } else {
      PairsForMonthsChain(start, n - 1);
      PairsForMonthsEnd(start, n - 1);
      var ym := Advance(start, n - 1);
      PairsForMonthsLast(start, n);
      MonthPairsCheckIns(ym);
      AppendWeekChain(PairsForMonths(start, n - 1), MonthPairs(ym), DayNumber(FridayOfMonth(start, 0)));
    }
  }

  /**
   * Check-ins running a week apart from d0, followed by check-ins running a
   * week apart from a week after the last of them, run a week apart from d0.
   */
  lemma AppendWeekChain(a: seq<DatePair>, b: seq<DatePair>, d0: int)
    requires forall i :: 0 <= i < |a| ==> CheckInDay(a[i]) == d0 + 7 * i
    requires forall j :: 0 <= j < |b| ==> CheckInDay(b[j]) == d0 + 7 * |a| + 7 * j
    ensures forall i :: 0 <= i < |a + b| ==> CheckInDay((a + b)[i]) == d0 + 7 * i
  {
    forall i | 0 <= i < |a + b|
      ensures CheckInDay((a + b)[i]) == d0 + 7 * i
    {
      if i >= |a| {
        assert (a + b)[i] == b[i - |a|];
      }
    }
  }

  /**
   * Every generated pair is a week long, with the stored day and month numbers
   * those of its two dates, and checks in on a Friday in one of the six months
   * from today's month on.
   */
  lemma SixMonthPairsAreFridayWeeks(today: Date)
    requires ValidDate(today)
    ensures forall i :: 0 <= i < |SixMonthPairs(today)| ==> GeneratedPair(SixMonthPairs(today)[i], MonthOf(today), 6)
  {
    PairsForMonthsGenerated(MonthOf(today), 6);
  }

  /**
   * The list starts at the first Friday of today's month and its check-ins
   * follow one another at exactly seven days, across month and year ends too.
   */
  lemma SixMonthPairsStepByWeeks(today: Date)
    requires ValidDate(today)
    ensures var pairs := SixMonthPairs(today);
      && |pairs| > 0
      && pairs[0].checkIn == FridayOfMonth(MonthOf(today), 0)
      && (forall i :: 0 <= i < |pairs| - 1 ==> CheckInDay(pairs[i + 1]) == CheckInDay(pairs[i]) + 7)
  {
    hide MonthPairs, MonthStart, WeekdayOf, SetDate;
    var pairs := SixMonthPairs(today);
    SixMonthPairsAreFridayWeeks(today);
    PairsForMonthsChain(MonthOf(today), 6);
    PairsForMonthsEnd(MonthOf(today), 6);
    assert GeneratedPair(pairs[0], MonthOf(today), 6);
    MonthPairsShape(MonthOf(today));
    DayNumberInjective(pairs[0].checkIn, FridayOfMonth(MonthOf(today), 0));
  }

  /** No Friday of a month comes before the month's first Friday. */
  lemma FridayNotBeforeFirstFriday(d: Date)
    requires ValidDate(d) && Weekday(d) == Friday
    ensures DayNumber(FridayOfMonth(MonthOf(d), 0)) <= DayNumber(d)
  {
    var ym := MonthOf(d);
    var f := FirstFriday(ym);
    assert d == Date(ym.year, ym.month, d.day);
    assert FridayOfMonth(ym, 0) == Date(ym.year, ym.month, f);
    DayOfMonthNumber(ym, d.day);
    DayOfMonthNumber(ym, f);
  }

  /** A month's first Friday lies within the month. */
  lemma FirstFridayWithinMonth(ym: YearMonth)
    requires ValidMonth(ym)
    ensures DayNumber(FirstOfMonth(ym)) <= DayNumber(FridayOfMonth(ym, 0)) < DayNumber(FirstOfMonth(NextMonth(ym)))
  {
    var f := FirstFriday(ym);
    assert FridayOfMonth(ym, 0) == Date(ym.year, ym.month, f);
    DateWithinMonth(Date(ym.year, ym.month, f));
  }

  /** A Friday in or after the start month lies on or after the start month's first Friday. */
  lemma FridayNotBeforeStart(start: YearMonth, d: Date)
    requires ValidMonth(start) && ValidDate(d) && Weekday(d) == Friday
    requires 0 <= MonthsBetween(start, MonthOf(d))
    ensures DayNumber(FridayOfMonth(start, 0)) <= DayNumber(d)
  {
    hide Advance, MonthStart, SetDate, WeekdayOf, FirstFriday, DayNumber, FridayOfMonth, Weekday;
    var ym := MonthOf(d);
    var k := MonthsBetween(start, ym);
    FridayNotBeforeFirstFriday(d);
    if k > 0 {
      AdvanceByMonthsBetween(start, ym);
      DateWithinMonth(d);
      FirstFridayWithinMonth(start);
      PairsForMonthsNone(start);
      AdvanceLast(start, 1);
      FirstOfMonthIncreasing(start, 1, k);
    } else {
      MonthIndexInjective(start, ym);
    }
  }

  /** A day of the n months from start on lies before the first Friday of the month after them. */
  lemma DateBeforeMonthsEnd(start: YearMonth, n: nat, d: Date)
    requires ValidMonth(start) && ValidDate(d)
    requires 0 <= MonthsBetween(start, MonthOf(d)) < n
    ensures DayNumber(d) < DayNumber(FridayOfMonth(Advance(start, n), 0))
  {
    hide Advance, MonthStart, SetDate, WeekdayOf, FirstFriday, DayNumber, FridayOfMonth, Weekday;
    var ym := MonthOf(d);
    var k := MonthsBetween(start, ym);
    AdvanceByMonthsBetween(start, ym);
    DateWithinMonth(d);
    AdvanceLast(start, k + 1);
    FirstOfMonthIncreasing(start, k + 1, n);
    FirstFridayWithinMonth(Advance(start, n));
  }

  /**
   * Every Friday of the n months from start on is the check-in of one of
   * the pairs generated for them.
   */
  lemma PairsForMonthsComplete(start: YearMonth, n: nat, d: Date)
    requires ValidMonth(start) && ValidDate(d) && Weekday(d) == Friday
    requires 0 <= MonthsBetween(start, MonthOf(d)) < n
    ensures exists i :: 0 <= i < |PairsForMonths(start, n)| && PairsForMonths(start, n)[i].checkIn == d
  {
    hide MonthPairs, PairsForMonths, Advance, CheckInDay, MonthStart, SetDate, FridayOfMonth, GeneratedPair;
    var pairs := PairsForMonths(start, n);
    var base := DayNumber(FridayOfMonth(start, 0));
    FridayNotBeforeStart(start, d);
    DateBeforeMonthsEnd(start, n, d);
    PairsForMonthsEnd(start, n);
    FridayOfMonthDay(start, 0);
    SameWeekdayWeeksApart(base, DayNumber(d));
    var i := (DayNumber(d) - base) / 7;
    assert DayNumber(d) == base + 7 * i;
    PairsForMonthsChain(start, n);
    PairsForMonthsGenerated(start, n);
    PairValidCheckIn(pairs[i], start, n);
    DayNumberInjective(pairs[i].checkIn, d);
    assert 0 <= i < |pairs| && pairs[i].checkIn == d;
  }

  lemma PairValidCheckIn(p: DatePair, start: YearMonth, n: nat)
    requires GeneratedPair(p, start, n)
    ensures ValidDate(p.checkIn) && CheckInDay(p) == DayNumber(p.checkIn)
  {
  }

  /**
   * The check-ins of the generated list are exactly the Fridays of the six
   * months from today's month on: every Friday of those months is one of them.
   */
  lemma SixMonthPairsComplete(today: Date, d: Date)
    requires ValidDate(today) && ValidDate(d) && Weekday(d) == Friday
    requires 0 <= MonthsBetween(MonthOf(today), MonthOf(d)) < 6
    ensures exists i :: 0 <= i < |SixMonthPairs(today)| && SixMonthPairs(today)[i].checkIn == d
  {
    hide MonthPairs, Advance;
    PairsForMonthsComplete(MonthOf(today), 6, d);
    var i :| 0 <= i < |PairsForMonths(MonthOf(today), 6)| && PairsForMonths(MonthOf(today), 6)[i].checkIn == d;
    assert SixMonthPairs(today)[i].checkIn == d;
  }

  /**
   * The list starts at the first Friday of today's month, not at the first
   * Friday from today: its first check-in lies before today exactly when
   * that Friday's day of the month is smaller than today's.
   */
  lemma SixMonthPairsMayStartBeforeToday(today: Date)
    requires ValidDate(today)
    ensures |SixMonthPairs(today)| > 0
    ensures DayNumber(SixMonthPairs(today)[0].checkIn) < DayNumber(today) <==> FirstFriday(MonthOf(today)) < today.day
  {
    var ym := MonthOf(today);
    SixMonthPairsStepByWeeks(today);
    assert SixMonthPairs(today)[0].checkIn == Date(ym.year, ym.month, FirstFriday(ym));
    assert today == Date(ym.year, ym.month, today.day);
    DayOfMonthNumber(ym, FirstFriday(ym));
    DayOfMonthNumber(ym, today.day);
  }

  /** No check-in is listed twice. */
  lemma SixMonthPairsCheckInsDistinct(today: Date, i: int, j: int)
    requires ValidDate(today) && 0 <= i < |SixMonthPairs(today)| && 0 <= j < |SixMonthPairs(today)|
    requires SixMonthPairs(today)[i].checkIn == SixMonthPairs(today)[j].checkIn
    ensures i == j
  {
    hide MonthPairs, Advance, DayNumber, FridayOfMonth;
    PairsForMonthsChain(MonthOf(today), 6);
  }
}
