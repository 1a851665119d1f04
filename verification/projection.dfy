/** What the calendar draws for a store of events: the time grid of the
    week and day views, and the 42-cell month grid (App.tsx,
    `renderTimeGrid` and `renderMonthGrid`). */
module Projection {
  import opened Common
  import opened Collections
  import opened CalendarDate
  import opened IsoDate
  import opened DateGrid
  import opened EventStore

  datatype ViewMode = Month | Week | Day

  // ---------------------------------------------------------------------
  // Joining events to a day.

  function OnDate(dateStr: string): Event -> bool {
    (e: Event) => e.date == dateStr
  }

  /** `events.filter(ev => ev.date === dateStr)`: the day's events, in
      store order. */
  function EventsOn(events: seq<Event>, dateStr: string): (r: seq<Event>)
    ensures forall i :: 0 <= i < |r| ==> r[i].date == dateStr && r[i] in events
    ensures forall i :: 0 <= i < |events| && events[i].date == dateStr ==> events[i] in r
    ensures |r| == |events| - CountFailing(events, OnDate(dateStr))
  {
    FilterLength(events, OnDate(dateStr));
    Filter(events, OnDate(dateStr))
  }

  /** A single event belongs to its own day and to no other. Together with
      `EventsOnKeepsOrder` this fixes the day's list: each stored event on
      that day, once, in store order. */
  lemma EventsOnSingle(e: Event, dateStr: string)
    ensures EventsOn([e], dateStr) == if e.date == dateStr then [e] else []
  {
    assert [e][1..] == [];
  }

  /** The day's events keep their relative store order. */
  lemma EventsOnKeepsOrder(a: seq<Event>, b: seq<Event>, dateStr: string)
    ensures EventsOn(a + b, dateStr) == EventsOn(a, dateStr) + EventsOn(b, dateStr)
  {
    FilterAppend(a, b, OnDate(dateStr));
  }

  /** A double-click adds the new event at the end of its own day. */
  lemma EventsOnAfterAdd(events: seq<Event>, freshId: string, title: string, date: string, startHour: int)
    ensures EventsOn(AddEvent(events, freshId, title, date, startHour), date)
      == EventsOn(events, date) + [Event(freshId, title, date, startHour, 1, EventColors[0], "")]
  {
    var e := Event(freshId, title, date, startHour, 1, EventColors[0], "");
    EventsOnKeepsOrder(events, [e], date);
    EventsOnSingle(e, date);
  }

  /** A double-click leaves every other day as it was. */
  lemma EventsOnAfterAddElsewhere(events: seq<Event>, freshId: string, title: string, date: string, startHour: int, other: string)
    requires other != date
    ensures EventsOn(AddEvent(events, freshId, title, date, startHour), other) == EventsOn(events, other)
  {
    var e := Event(freshId, title, date, startHour, 1, EventColors[0], "");
    EventsOnKeepsOrder(events, [e], other);
    EventsOnSingle(e, other);
  }

  // ---------------------------------------------------------------------
  // The time grid.

  /** The hour rows 8:00 .. 22:00. */
  const Hours: seq<int> := [8, 9, 10, 11, 12, 13, 14, 15, 16, 17, 18, 19, 20, 21, 22]

  /** Each hour row is `h-20`, that is 5rem tall. */
  const RowHeight: int := 5

  /** An event block, positioned in rem from the top of the day column. */
  datatype Block = Block(event: Event, top: int, height: int)

  /** `top: (startHour - 8) * 5rem`, `height: duration * 5rem`: the block
      spans from its start hour to its end hour, measured from the first
      row, whether or not those hours are rows of the grid. */
  function Place(e: Event): (b: Block)
    ensures b.event == e
    ensures b.top == (e.startHour - Hours[0]) * RowHeight
    ensures b.top + b.height == (e.startHour + e.duration - Hours[0]) * RowHeight
    ensures forall k :: 0 <= k < |Hours| && Hours[k] == e.startHour ==> b.top == k * RowHeight
    ensures forall k :: 0 <= k < |Hours| && Hours[k] == e.startHour + e.duration ==>
      b.top + b.height == k * RowHeight
  {
    Block(e, (e.startHour - 8) * 5, e.duration * 5)
  }

  /** Two blocks overlap on screen exactly when the hour spans of their
      events overlap. */
  lemma PlaceOverlap(e1: Event, e2: Event)
    requires e1.duration > 0 && e2.duration > 0
    ensures var b1, b2 := Place(e1), Place(e2);
      (b1.top < b2.top + b2.height && b2.top < b1.top + b1.height)
      <==> (e1.startHour < e2.startHour + e2.duration && e2.startHour < e1.startHour + e1.duration)
  {
  }

  /** One column of the time grid. */
  datatype Column = Column(date: Date, dateStr: string, blocks: seq<Block>)

  function ColumnFor(events: seq<Event>, d: Date): (c: Column)
    ensures c.date == d && c.dateStr == Format(d)
    ensures |c.blocks| == |EventsOn(events, Format(d))|
    ensures forall i :: 0 <= i < |c.blocks| ==> c.blocks[i] == Place(EventsOn(events, Format(d))[i])
  {
    var day := EventsOn(events, Format(d));
    Column(d, Format(d), seq(|day|, i requires 0 <= i < |day| => Place(day[i])))
  }

  // ---------------------------------------------------------------------
  // The month grid.

  /** What one month cell lists: at most three chips, then `+ N`. */
  datatype CellView = CellView(chips: seq<Event>, more: Option<nat>)

  /** `dayEvents.slice(0, 3)` and `dayEvents.length > 3 && + (length - 3)`. */
  function CellContent(dayEvents: seq<Event>): (v: CellView)
    ensures |v.chips| == (if |dayEvents| <= 3 then |dayEvents| else 3)
    ensures v.chips == dayEvents[..|v.chips|]
    ensures v.more.Some? <==> |dayEvents| > 3
    ensures |v.chips| + (if v.more.Some? then v.more.value else 0) == |dayEvents|
  {
    if |dayEvents| > 3 then CellView(dayEvents[..3], Some(|dayEvents| - 3))
    else CellView(dayEvents, None)
  }

  datatype MonthCell = MonthCell(cell: Cell, dateStr: string, content: CellView)

  // ---------------------------------------------------------------------
  // The whole calendar body.

  datatype Screen = TimeGrid(columns: seq<Column>) | MonthGrid(cells: seq<MonthCell>)

  /** The body for a view mode and anchor: seven columns for the week of
      the anchor, one for the day view, 42 cells for the month. */
  function Render(events: seq<Event>, view: ViewMode, current: Date): (s: Screen)
    requires Valid(current)
    ensures view == Month <==> s.MonthGrid?
    ensures view == Week ==>
      (|s.columns| == 7
       && forall i :: 0 <= i < 7 ==> s.columns[i] == ColumnFor(events, WeekDays(current)[i]))
    ensures view == Day ==> s.columns == [ColumnFor(events, current)]
    ensures view == Month ==>
      (|s.cells| == 42
       && forall i :: 0 <= i < 42 ==>
            (s.cells[i].cell == MonthDays(current)[i]
             && s.cells[i].dateStr == Format(MonthDays(current)[i].date)
             && s.cells[i].content == CellContent(EventsOn(events, s.cells[i].dateStr))))
  {
    match view
    case Week =>
      var days := WeekDays(current);
      TimeGrid(seq(7, i requires 0 <= i < 7 => ColumnFor(events, days[i])))
    case Day => TimeGrid([ColumnFor(events, current)])
    case Month =>
      var cells := MonthDays(current);
      MonthGrid(seq(42, i requires 0 <= i < 42 =>
        MonthCell(cells[i], Format(cells[i].date), CellContent(EventsOn(events, Format(cells[i].date))))))
  }

  // ---------------------------------------------------------------------
  // No event is drawn twice.

  /** Days less than a year apart lie in the same or adjacent years. */
  lemma YearWithinOne(c: Date, d: Date)
    requires Valid(c) && Valid(d)
    requires DayNumber(d) - 365 < DayNumber(c) < DayNumber(d) + 365
    ensures d.year - 1 <= c.year <= d.year + 1
  {
    DayNumberWithinYear(c);
    DayNumberWithinYear(d);
    if c.year <= d.year - 2 {
      DaysBeforeYearMonotone(c.year + 1, d.year);
    } else if c.year >= d.year + 2 {
      DaysBeforeYearMonotone(d.year + 1, c.year);
    }
  }

  /** Every cell of the grid lies within a year of the anchor. */
  lemma MonthCellYear(current: Date, i: int)
    requires Valid(current) && 0 <= i < 42
    ensures current.year - 1 <= MonthDays(current)[i].date.year <= current.year + 1
  {
    var c := MonthDays(current)[i].date;
    var first := FirstOfMonth(current);
    assert Valid(first);
    YearWithinOne(c, first);
  }

  /** The 42 cells carry 42 different date strings. */
  lemma MonthDateStringsDistinct(current: Date, i: int, j: int)
    requires Valid(current) && -999998 <= current.year <= 999998
    requires 0 <= i < 42 && 0 <= j < 42 && i != j
    ensures Format(MonthDays(current)[i].date) != Format(MonthDays(current)[j].date)
  {
    var a, b := MonthDays(current)[i].date, MonthDays(current)[j].date;
    MonthCellYear(current, i);
    MonthCellYear(current, j);
    FormatInjective(a, b);
  }

  /** No event is listed in two different cells of the month grid. */
  lemma MonthEventAtMostOnce(events: seq<Event>, current: Date, e: Event, i: int, j: int)
    requires Valid(current) && -999998 <= current.year <= 999998
    requires 0 <= i < 42 && 0 <= j < 42 && i != j
    ensures !(e in EventsOn(events, Format(MonthDays(current)[i].date))
              && e in EventsOn(events, Format(MonthDays(current)[j].date)))
  {
    MonthDateStringsDistinct(current, i, j);
  }

  /** No event is drawn in two different columns of the week. */
  lemma WeekEventAtMostOnce(events: seq<Event>, current: Date, e: Event, i: int, j: int)
    requires Valid(current) && -999998 <= current.year <= 999998
    requires 0 <= i < 7 && 0 <= j < 7 && i != j
    ensures !(e in EventsOn(events, Format(WeekDays(current)[i]))
              && e in EventsOn(events, Format(WeekDays(current)[j])))
  {
    var a, b := WeekDays(current)[i], WeekDays(current)[j];
    WeekDayYear(current, i);
    WeekDayYear(current, j);
    FormatInjective(a, b);
  }

  /** Every day of the displayed week lies within a year of the anchor. */
  lemma WeekDayYear(current: Date, i: int)
    requires Valid(current) && 0 <= i < 7
    ensures current.year - 1 <= WeekDays(current)[i].year <= current.year + 1
  {
    YearWithinOne(WeekDays(current)[i], current);
  }

  /** A stored event whose date string names a cell of the grid is listed
      there: as one of the chips, or else within the `+ N` overflow. */
  lemma MonthEventShown(events: seq<Event>, current: Date, k: int, i: int)
    requires Valid(current) && 0 <= k < |events| && 0 <= i < 42
    ensures var v := Render(events, Month, current).cells[i].content;
      events[k].date == Format(MonthDays(current)[i].date) ==>
        events[k] in v.chips || (v.more.Some? && v.more.value > 0)
  {
    if events[k].date == Format(MonthDays(current)[i].date) {
      var day := EventsOn(events, events[k].date);
      assert events[k] in day;
      var v := Render(events, Month, current).cells[i].content;
      assert v == CellContent(day);
      if |day| <= 3 {
        assert v.chips == day;
      }
    }
  }

}
