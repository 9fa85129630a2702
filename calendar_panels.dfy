/**
 * Reading the month the results-page date picker is showing. The picker
 * shows several calendar panels side by side; the active one is the panel
 * whose article still holds a visible "next month" button. Each panel's
 * header label is searched for an English month name and a four-digit year.
 */
module CalendarPanels {
  import opened Options
  import opened Text
  import opened Dates

  /** The month names the header is searched for, January at index 0. */
  const MonthNames: seq<string> := [
    "January", "February", "March", "April", "May", "June",
    "July", "August", "September", "October", "November", "December"]

  /**
   * One calendar panel, in document order: the text of its header label and
   * whether the article around it holds a visible "next month" button.
   */
  datatype Panel = Panel(header: string, hasVisibleNextButton: bool)

  /** The first month, counting from month j, whose name the header contains. */
  function MonthNameFrom(header: string, j: nat): (r: Option<int>)
    requires j <= 12
    ensures r.Some? ==> j <= r.value < 12 && Includes(header, MonthNames[r.value])
    ensures forall k :: j <= k < 12 && (r.None? || k < r.value) ==> !Includes(header, MonthNames[k])
    decreases 12 - j
  {
    if j == 12 then None
    else if Includes(header, MonthNames[j]) then Some(j)
    else MonthNameFrom(header, j + 1)
  }

  /** The first month whose name the header contains, January first. */
  function MonthNameIn(header: string): Option<int> {
    MonthNameFrom(header, 0)
  }

  /**
   * What the parser reads from one panel: nothing unless the panel has a
   * visible "next month" button and a month name in its header; otherwise
   * that month, in the year the header's first four digits give (the current
   * year when there are none).
   */
  function PanelReading(p: Panel, today: Date): (r: Option<YearMonth>)
    ensures r.None? <==> !p.hasVisibleNextButton || forall j :: 0 <= j < 12 ==> !Includes(p.header, MonthNames[j])
    ensures r.Some? ==>
      && ValidMonth(r.value)
      && Includes(p.header, MonthNames[r.value.month])
      && (forall j :: 0 <= j < r.value.month ==> !Includes(p.header, MonthNames[j]))
      && r.value.year == YearIn(p.header, today.year)
  {
    if !p.hasVisibleNextButton then None
    else match MonthNameIn(p.header)
      case None => None
      case Some(j) => Some(YearMonth(YearIn(p.header, today.year), j))
  }

  /**
   * The month the picker is taken to show: the reading of the rightmost
   * panel that gives one, or today's month when no panel does.
   */
  function ActiveCalendar(panels: seq<Panel>, today: Date): (r: YearMonth)
    ensures ValidMonth(MonthOf(today)) ==> ValidMonth(r)
  {
    if |panels| == 0 then MonthOf(today)
    else match PanelReading(panels[|panels| - 1], today)
      case Some(ym) => ym
      case None => ActiveCalendar(panels[..|panels| - 1], today)
  }

  /** The active calendar is the reading of the rightmost panel that gives one. */
  lemma {:induction false} ActiveCalendarReadsPanel(panels: seq<Panel>, today: Date, i: int)
    requires 0 <= i < |panels| && PanelReading(panels[i], today).Some?
    requires forall k :: i < k < |panels| ==> PanelReading(panels[k], today).None?
    ensures ActiveCalendar(panels, today) == PanelReading(panels[i], today).value
  {
    var last := |panels| - 1;
    if i < last {
      var init := panels[..last];
      assert forall k :: i < k < |init| ==> init[k] == panels[k];
      ActiveCalendarReadsPanel(init, today, i);
    }
  }

  /** When no panel gives a reading, the active calendar is today's month. */
  lemma {:induction false} ActiveCalendarFallback(panels: seq<Panel>, today: Date)
    requires forall k :: 0 <= k < |panels| ==> PanelReading(panels[k], today).None?
    ensures ActiveCalendar(panels, today) == MonthOf(today)
  {
    if |panels| > 0 {
      var init := panels[..|panels| - 1];
      assert forall k :: 0 <= k < |init| ==> init[k] == panels[k];
      ActiveCalendarFallback(init, today);
    }
  }

  /** The active calendar of the first i + 1 panels, from the reading of panel i. */
  lemma ActiveCalendarStep(panels: seq<Panel>, today: Date, i: int)
    requires 0 <= i < |panels|
    ensures ActiveCalendar(panels[..i + 1], today) ==
      if PanelReading(panels[i], today).Some? then PanelReading(panels[i], today).value
      else ActiveCalendar(panels[..i], today)
  {
    assert panels[..i + 1][..i] == panels[..i];
  }

  /** A panel with a visible button reads as the first month name its label contains. */
  lemma PanelReadingOf(p: Panel, today: Date, j: int)
    requires p.hasVisibleNextButton && 0 <= j < 12 && Includes(p.header, MonthNames[j])
    requires forall k :: 0 <= k < j ==> !Includes(p.header, MonthNames[k])
    ensures PanelReading(p, today) == Some(YearMonth(YearIn(p.header, today.year), j))
  {
  }

  /**
   * The body of getCurrentMonth's panel loop: try the month names from
   * January on; the first one the label contains gives the month, provided
   * the panel has a visible "next month" button.
   */
  method ReadPanel(panel: Panel, today: Date) returns (reading: Option<YearMonth>)
    ensures reading == PanelReading(panel, today)
  {
    hide Includes, YearIn, MonthNameFrom, PanelReading;
    for j := 0 to |MonthNames|
      invariant panel.hasVisibleNextButton ==> forall k :: 0 <= k < j ==> !Includes(panel.header, MonthNames[k])
    {
      if Includes(panel.header, MonthNames[j]) {
        var year := YearIn(panel.header, today.year);
        if panel.hasVisibleNextButton {
          PanelReadingOf(panel, today, j);
          return Some(YearMonth(year, j));
        }
      }
    }
    return None;
  }

  /**
   * getCurrentMonth: scan the panels from the last to the first; the first
   * panel that gives a reading gives the month. Falls back to today's month
   * and year.
   */
  method GetCurrentMonth(panels: seq<Panel>, today: Date) returns (current: YearMonth)
    requires ValidMonth(MonthOf(today))
    ensures current == ActiveCalendar(panels, today)
    ensures ValidMonth(current)
  {
    hide ActiveCalendar, PanelReading;
    var i := |panels|;
    assert panels[..i] == panels;
    while i > 0
      invariant 0 <= i <= |panels|
      invariant ActiveCalendar(panels[..i], today) == ActiveCalendar(panels, today)
    {
      i := i - 1;
      ActiveCalendarStep(panels, today, i);
      var reading := ReadPanel(panels[i], today);
      if reading.Some? {
        return reading.value;
      }
    }
    ActiveCalendarFallback([], today);
    return MonthOf(today);
  }
}
