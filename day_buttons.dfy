/**
 * Picking a day in the results-page date picker: among the day buttons
 * that are neither disabled nor shown for a neighbouring month, the first
 * whose span reads the day number (white space trimmed) is clicked.
 */
module DayButtons {
  import opened Options
  import opened Text

  /**
   * A day button of the picker, in document order: the text of its span
   * (None when it has no span) and the two classes that exclude it.
   */
  datatype DayButton = DayButton(span: Option<string>, disabled: bool, otherMonth: bool)

  /** The buttons the picker's day selector returns: enabled days of the shown month. */
  predicate Selectable(b: DayButton) {
    !b.disabled && !b.otherMonth
  }

  /**
   * A selectable button with a span whose trimmed text is day.toString().
   * Such a text is a run of digits that reads back as the day.
   */
  predicate ShowsDay(b: DayButton, day: nat): (r: bool)
    ensures r ==> (
      && Selectable(b) && b.span.Some?
      && var t := Trim(b.span.value);
         |t| > 0 && (forall k :: 0 <= k < |t| ==> IsDigit(t[k])) && DigitsValue(t) == day)
  {
    DecimalStringValue(day);
    Selectable(b) && b.span.Some? && Trim(b.span.value) == DecimalString(day)
  }

  /**
   * clickDateInNewCalendar: walk the buttons in document order, skipping
   * those without a span, and click the first whose trimmed text is the day
   * number. Returns the index of the button clicked (None, the source's
   * false, when there is none).
   */
  method ClickDateInNewCalendar(buttons: seq<DayButton>, day: nat) returns (clicked: Option<nat>)
    ensures clicked.Some? ==> clicked.value < |buttons| && ShowsDay(buttons[clicked.value], day)
    ensures clicked.Some? ==> forall k :: 0 <= k < clicked.value ==> !ShowsDay(buttons[k], day)
    ensures clicked.None? <==> forall k :: 0 <= k < |buttons| ==> !ShowsDay(buttons[k], day)
  {
    var target := DecimalString(day);
    for i := 0 to |buttons|
      invariant forall k :: 0 <= k < i ==> !ShowsDay(buttons[k], day)
    {
      var button := buttons[i];
      if Selectable(button) && button.span.Some? {
        var text := button.span.value;
        if Trim(text) == target {
          return Some(i);
        }
      }
    }
    return None;
  }

  /** A selectable button reading the day number with any white-space padding shows that day. */
  lemma PaddedDayShows(b: DayButton, day: nat, pre: string, post: string)
    requires Selectable(b) && b.span == Some(pre + DecimalString(day) + post)
    requires forall k :: 0 <= k < |pre| ==> IsWhiteSpace(pre[k])
    requires forall k :: 0 <= k < |post| ==> IsWhiteSpace(post[k])
    ensures ShowsDay(b, day)
  {
    DecimalStringTrimmed(day);
    TrimPadded(pre, DecimalString(day), post);
  }

  /** A button shows at most one day, so lookups for different days click different buttons. */
  lemma ShowsOneDay(b: DayButton, d1: nat, d2: nat)
    requires ShowsDay(b, d1) && ShowsDay(b, d2)
    ensures d1 == d2
  {
    DecimalStringInjective(d1, d2);
  }

  /** A span reading the day with a leading zero ("07") never shows it. */
  lemma LeadingZeroNeverShows(b: DayButton, day: nat)
    requires b.span.Some? && |Trim(b.span.value)| > 1 && Trim(b.span.value)[0] == '0'
    ensures !ShowsDay(b, day)
  {
  }
}
