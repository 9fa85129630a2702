# Friday-to-Friday hotel price scraper: a verified model of its calendar logic

The scraper in `new-scraper.js` collects hotel prices for week-long stays that
run from one Friday to the next. First it searches once, on the hotel page,
for the stay starting on the first Friday from today on. Then, on the results
page, it works through a list of Friday-to-Friday pairs covering six calendar
months. For each pair it moves the results page's date picker to the right
month, clicks the check-in and check-out days, and records the price it
reads, or a failure marker.

This project models the logic inside that browser script, in Dafny:

- **Dates** (`dates.dfy`). This is the calendar arithmetic the script gets
  from JavaScript's `Date`:
  - months numbered 0..11;
  - `getDay()` weekdays, with Friday = 5;
  - `setDate` rolling over into later months and years;
  - `new Date(y, m + 1, 0)` as the last day of a month;
  - Date objects compared by their time value.

  A date's time value is modelled as its day count from 1 January 1970,
  built up month by month from the Gregorian month lengths.
- **Friday pairs** (`friday_pairs.dfy`). This is
  `getFridayToFridayDatesFor6Months`, as the loops of the source with
  today's date as a parameter. It is proved equal to a specification: the
  pairs of each month, concatenated over six months. That specification is
  proved complete and week-spaced.
- **Initial search** (`initial_search.dfy`). These are the `daysUntilFriday`
  computation and the initial check-in and check-out dates.
- **Calendar panels** (`calendar_panels.dfy`). This is `getCurrentMonth`,
  which reads the month the date picker shows. The DOM becomes a sequence of
  panels, each a header label and whether its article has a visible "next
  month" button.
- **Navigation** (`navigation.dfy`). It holds the years chosen for the
  check-in and check-out months, and `navigateToTargetMonth`. The
  "next month" action becomes an oracle of outcomes.
- **Day buttons** (`day_buttons.dfy`). This is `clickDateInNewCalendar`,
  over a sequence of day buttons.
- **Price collection** (`price_collection.dfy`). This is the loop that
  builds `priceResults`. Selection and price extraction are oracles.
- **Text** (`text.dfy`, with `Option` in `options.dfy`). It holds the
  string operations these rely on: `trim`, `includes`, the first `/\d{4}/`
  match read with `parseInt`, and `toString` of a day number.

Some behaviour of the code worth knowing when reading the model:

- **Where the list starts.** The generated list starts at the first Friday
  of the current month, which can be before today (see
  `FridayPairs.SixMonthPairsMayStartBeforeToday`).
- **How far the list reaches.** The list covers six whole calendar months:
  the current month and the five after it.
- **Negative month counts.** Navigation treats a negative month count as
  success and makes no clicks, leaving the picker where it was.
- **Number of clicks.** Otherwise navigation clicks "next month" exactly as
  many times as the month difference, stopping at the first failed click.

## Model

| member | source | states |
|---|---|---|
| Dates.DaysInMonth | new-scraper.js:155 | A month has 28 to 31 days. Only February has fewer than 30, and it has 29 exactly in Gregorian leap years. |
| Dates.NextMonth | new-scraper.js:150-151 | The month after a valid month is valid and one month further on in time, rolling December over into January of the next year. |
| Dates.PreviousMonth | new-scraper.js:150-151 | The month before a valid month is the one whose next month it is. |
| Dates.Weekday | new-scraper.js:159 | getDay() of a date is a weekday number 0..6. |
| Dates.WeekdayStep | new-scraper.js:159-160 | Stepping a date forward by j < 7 days moves its weekday forward by j, wrapping after Saturday. |
| Dates.WeekdayAfterWeeks | new-scraper.js:185 | Dates a whole number of weeks apart have the same weekday. |
| Dates.SameWeekdayWeeksApart | new-scraper.js:185 | Day counts with the same weekday differ by a multiple of seven. |
| Dates.NextMonthStart | new-scraper.js:154-155 | A month's first day comes as many days after the previous month's first day as that month is long. |
| Dates.SetDate | new-scraper.js:160 | setDate(x) for x >= 1 gives a valid date x - 1 days after the first of the month, rolling over into later months and years. |
| Dates.AddDays | new-scraper.js:452-457 | setDate(getDate() + k) gives a valid date exactly k days later. |
| Dates.LastDayOfMonth | new-scraper.js:155 | new Date(y, m + 1, 0) is a valid day of month m, and the day before the first of the next month. |
| Dates.Advance | new-scraper.js:120-129 | The month k clicks of "next month" show after a valid month is a valid month exactly k months further on in time. |
| Dates.MonthsBetween | new-scraper.js:103 | monthsToNavigate is how many months apart the two months lie in time. For valid months it is zero exactly when they are the same month. |
| Dates.MonthIndexInjective | new-scraper.js:150-151 | A valid month is determined by its position in time. |
| Dates.MonthStartIncreasing | new-scraper.js:162 | A later month starts no earlier than the end of an earlier one. |
| Dates.DayNumberInjective | new-scraper.js:162-168 | Distinct valid dates have distinct time values, so comparing Date objects compares dates. |
| Dates.MonthsBetweenAdvance | new-scraper.js:103 | After k clicks of "next month", the month difference from the start is k. |
| Dates.AdvanceByMonthsBetween | new-scraper.js:103 | Clicking "next month" monthsToNavigate times from the shown month reaches the target month, when that count is not negative. |
| Dates.DateWithinMonth | new-scraper.js:168 | A valid date lies on or after the first of its month and before the first of the next month. |
| Dates.FirstOfMonthIncreasing | new-scraper.js:149-151 | Each later month starts at least 28 days further on. |
| Dates.NearDatesNearMonths | new-scraper.js:171-180 | Valid dates fewer than 28 days apart lie in the same month or in consecutive months. |
| Dates.SameMonthNumberWithinAYear | new-scraper.js:209 | Two months with the same month number, both within the twelve months from a common month, are the same month. |
| FridayPairs.FirstFriday | new-scraper.js:157-165 | A month's first Friday is one of days 1..7. It is a Friday, no earlier day of the month is, and it lies within the month, so the "past the end of the month" break never fires. |
| FridayPairs.FirstFridayIsEarliest | new-scraper.js:159-165 | The day the first-Friday loop stops at is a Friday, and none of the days it stepped over is. |
| FridayPairs.GetFridayToFridayDatesFor6Months | new-scraper.js:140-190 | The list built by the loops is the pairs of the six months from today's month on, concatenated in month order. |
| FridayPairs.AppendMonthPairs | new-scraper.js:153-186 | One turn of the month loop appends that month's pairs: one for its first Friday and one for every seventh day after it, while within the month. |
| FridayPairs.NextMonthAppended | new-scraper.js:149-151 | The month computed at offset k with % and Math.floor is the k-th month after the start, so each turn extends the list by the next month's pairs. |
| FridayPairs.MonthAtOffsetIsAdvance | new-scraper.js:150-151 | (startMonth + k) % 12 with year startYear + floor((startMonth + k) / 12) is the month k "next month" steps on. |
| FridayPairs.MonthAtOffset | new-scraper.js:150-151 | The month computed at offset k is a valid month k months after the start month. |
| FridayPairs.PairStartingOn | new-scraper.js:169-182 | The recorded pair has the given check-in and a check-out exactly 7 days later. Its day and month numbers are those of the two dates, and its check-out falls in the same month or the next. |
| FridayPairs.FridaysFrom | new-scraper.js:168-186 | From day k on, the pair loop records one pair for each of k, k + 7, ... up to the month's last day, and none once k is past it. |
| FridayPairs.PushFridays | new-scraper.js:168-186 | The pair-pushing loop appends exactly the pairs for the given first Friday and every seventh day after it within the month. |
| FridayPairs.MonthPairs | new-scraper.js:157-186 | A month contributes 4 or 5 pairs. |
| FridayPairs.SixMonthPairs | new-scraper.js:140-190 | The generated list holds 24 to 30 pairs. |
| FridayPairs.FridaysFromElements | new-scraper.js:168-186 | The i-th pair recorded from day k on is the pair for day k + 7i of the month. |
| FridayPairs.FridayOfMonth | new-scraper.js:168-185 | The i-th Friday of a month, counted from its first Friday, is a date of that month's year and month number. For i >= 0 it is a valid day of the month exactly when the month has a pair for it (i < 4 or 5). |
| FridayPairs.FridayOfMonthDay | new-scraper.js:185 | The i-th Friday of a month is a Friday 7i days after the first. |
| FridayPairs.MonthPairsShape | new-scraper.js:157-186 | The i-th pair of a month is the pair for the month's i-th Friday, a valid date and a Friday 7i days after its first Friday. |
| FridayPairs.OnlyFridayOfFirstWeek | new-scraper.js:159-165 | The only Friday among a month's first seven days is its first Friday. |
| FridayPairs.NextFridayAfterMonth | new-scraper.js:149-186 | A week after a month's last listed Friday comes the next month's first Friday, so no Friday is skipped at a month boundary. |
| FridayPairs.MonthPairsCheckIns | new-scraper.js:168-185 | A month's check-ins run a week apart from its first Friday. |
| FridayPairs.PairsForMonthsCount | new-scraper.js:149-186 | n months yield between 4n and 5n pairs. |
| FridayPairs.PairsForMonthsGenerated | new-scraper.js:149-182 | Every pair listed for n months is week-long and checks in on a Friday in one of those n months. |
| FridayPairs.PairsForMonthsEnd | new-scraper.js:149-186 | The check-ins for n months end one week before the first Friday of the month after them. |
| FridayPairs.PairsForMonthsChain | new-scraper.js:149-186 | The i-th check-in for n months is 7i days after the start month's first Friday, across month and year ends. |
| FridayPairs.PairsForMonthsComplete | new-scraper.js:149-186 | Every Friday of the n months from the start month on is the check-in of a listed pair. |
| FridayPairs.SixMonthPairsAreFridayWeeks | new-scraper.js:149-182 | Every generated pair is week-long, with the stored numbers of its dates, and checks in on a Friday within the six months from today's month. |
| FridayPairs.SixMonthPairsStepByWeeks | new-scraper.js:144-186 | The list starts at the first Friday of today's month, and each check-in is exactly 7 days after the previous one, so the list is strictly increasing. |
| FridayPairs.SixMonthPairsComplete | new-scraper.js:149-186 | Every Friday of the six months from today's month on is a check-in of the list. Together with SixMonthPairsAreFridayWeeks, the check-ins are exactly those Fridays. |
| FridayPairs.SixMonthPairsMayStartBeforeToday | new-scraper.js:142-165 | The first check-in lies before today exactly when the month's first Friday is earlier in the month than today. |
| FridayPairs.SixMonthPairsCheckInsDistinct | new-scraper.js:149-186 | No check-in date appears twice in the list. |
| InitialSearch.DaysUntilFriday | new-scraper.js:443-449 | daysUntilFriday is 0..6, lands on a Friday, and no earlier offset does. The reassignment to 7 is therefore unreachable. |
| InitialSearch.InitialSearchDates | new-scraper.js:442-458 | The initial check-in is a valid date, the first Friday on or after today and fewer than 7 days on. The check-out is 7 days later, and the stored numbers are their days of the month. |
| InitialSearch.InitialCheckInListed | new-scraper.js:442-458 | The initial check-in is one of the check-ins of the generated list. |
| CalendarPanels.MonthNameFrom | new-scraper.js:59-63 | The month found is the first, in January-to-December order, whose English name the label contains. |
| CalendarPanels.PanelReading | new-scraper.js:53-92 | A panel gives no reading exactly when it has no visible next button or its label holds no month name. Otherwise the reading's month is the first name the label contains, in 0..11, and its year is the label's first four digits or the current year. |
| CalendarPanels.ActiveCalendar | new-scraper.js:48-97 | The month getCurrentMonth returns is always one of 0..11. |
| CalendarPanels.ActiveCalendarReadsPanel | new-scraper.js:54-92 | The active calendar is the reading of the rightmost panel that gives one. |
| CalendarPanels.ActiveCalendarFallback | new-scraper.js:94-97 | When no panel gives a reading, today's month and year are used. |
| CalendarPanels.ReadPanel | new-scraper.js:62-92 | The loop over month names returns a panel's reading. |
| CalendarPanels.GetCurrentMonth | new-scraper.js:48-97 | Scanning panels from last to first returns the active calendar, a valid month. |
| Navigation.CheckInYear | new-scraper.js:207-209 | The chosen year puts the check-in month within the twelve months from today's month. |
| Navigation.CheckInYearIsOnlyChoice | new-scraper.js:209 | Any year that does so is the chosen year. |
| Navigation.CheckOutYear | new-scraper.js:271-272 | The chosen year puts the check-out month within the twelve months from the check-in month. |
| Navigation.CheckOutYearIsOnlyChoice | new-scraper.js:272 | Any year that does so is the chosen year. |
| Navigation.ClicksToReachTarget | new-scraper.js:103 | k clicks of "next month" reach the target exactly when k = monthsToNavigate, so a negative count means no number of clicks does. |
| Navigation.NavigateToTargetMonth | new-scraper.js:43-137 | A month difference of 0 or less gives success with no next-month call. Otherwise the calls stop at the first failure, which gives false, or succeed exactly monthsToNavigate times. On success with a non-negative count, the picker shows the target month. |
| Navigation.PairTargets | new-scraper.js:207-273 | For a week-long Friday pair in the six months, the chosen check-in year is its check-in's year. Its check-out is in the same month or the next, and when the months differ, the chosen check-out year is the check-out's year. |
| Navigation.GeneratedPairTargets | new-scraper.js:207-273 | Every generated pair's check-in and check-out months are the months the date selection navigates to. |
| DayButtons.ClickDateInNewCalendar | new-scraper.js:218-247 | It clicks the first selectable button, in document order, with a span whose trimmed text is day.toString(). It reports failure exactly when there is no such button; buttons without a span are skipped. |
| DayButtons.ShowsDay | new-scraper.js:220-226 | A button that matches a day is selectable and has a span whose trimmed text is a non-empty run of digits reading back as that day. |
| DayButtons.PaddedDayShows | new-scraper.js:225-226 | A selectable button reading the day number with white-space padding is found. |
| DayButtons.ShowsOneDay | new-scraper.js:226 | A button matches at most one day number. |
| DayButtons.LeadingZeroNeverShows | new-scraper.js:226 | A span reading a day with a leading zero, such as "07", never matches. |
| PriceCollection.CollectPrices | new-scraper.js:643-693 | There is one result per pair, in pair order, carrying the pair's dates. The price is the first price for a pair matching the initial search, the extracted price when selection succeeded, and "Failed to get price" otherwise. |
| PriceCollection.MatchesInitialSearch | new-scraper.js:651-652 | A pair with the initial search's dates and day numbers is skipped. A week-long pair that is skipped, with a check-in in the initial check-in's year, has the initial check-in. |
| PriceCollection.SkipFiresOnce | new-scraper.js:651-652 | Over the generated list, exactly one pair matches the initial search: the one with the initial check-in. |
| Text.TrimPadded | new-scraper.js:226 | trim() removes exactly the leading and trailing white space. |
| Text.TrimIdempotent | new-scraper.js:226 | Trimming twice is trimming once. |
| Text.Trim | new-scraper.js:226 | trim() never lengthens the text. Its result is empty exactly when the text is white space alone, and otherwise neither starts nor ends with white space. |
| Text.Includes | new-scraper.js:63 | includes holds exactly when the substring occurs at some position. |
| Text.FirstFourDigitsFrom | new-scraper.js:64 | The match of /\d{4}/ starts at the leftmost position holding four digits in a row. |
| Text.YearIn | new-scraper.js:64 | The year is the fallback when there is no four-digit run. Otherwise it is the number the first four-digit run spells, read as parseInt does, so it lies in 0..9999. |
| Text.FourDigitsValue | new-scraper.js:64 | parseInt of four digits is thousands, hundreds, tens and units. |
| Text.DecimalString | new-scraper.js:226 | day.toString() is a non-empty string of digits without a leading zero. |
| Text.DecimalStringValue | new-scraper.js:226 | Reading back a day number's decimal rendering gives the number. |
| Text.DecimalStringInjective | new-scraper.js:226 | Distinct day numbers render differently. |

## Left out

- The browser is not modelled: Puppeteer launch, page navigation, waits for selectors, element handles, `evaluate` and key presses. Where a core loop depends on it, it is an input: panels, day buttons, or an oracle of outcomes (the "next month" action, date selection, price extraction).
- The native-click then script-click fallbacks, the search-button re-click and its visibility checks, and the fixed `setTimeout` sleeps have no stateable logic beyond success or failure.
- `navigateToNextMonth` is an oracle. The model assumes each successful call moves the picker on by one month and a failed call leaves it where it is. Exceptions caught inside `navigateToTargetMonth` are not modelled separately.
- `selectDatesOnResultsPage` beyond its two year choices is not modelled: clearing the selection, the order of its two navigations and two clicks, and the search-button submit. The price loop sees only its success or failure.
- `extractPrice` and the first price are opaque strings.
- `monthName` (from `toLocaleString`) and the grouping of pairs by month name for display are not modelled, since they depend on the locale and are used only for output.
- Cookie handling, the user agent, console logging, the `require.main` entry point, and the search on the hotel page (`clickDate` there) are not modelled.
- The system clock is not modelled. Today's date is a parameter, and the same date is used wherever the source calls `new Date()` again. A run that crosses midnight or a month end is not modelled.
- Time of day, time zones and daylight-saving shifts are not modelled. Dates are local calendar days, and Date objects are compared by day count.
- JavaScript's Date range limits are not modelled.
- `new Date(y, m, d)` reads a year 0..99 as 1900..1999. The model takes every year as a full year. With a real clock the years involved are four-digit years, so this mapping never applies.
- A month header with no ARTICLE ancestor is not modelled. Every panel is taken to sit in an article that either has or lacks the visible button.
- Text.IsWhiteSpace: the Unicode space separators are listed explicitly as of Unicode 15. Any later additions to that category are not covered.
