/** The interaction state of the calendar panel (App.tsx,
    `CalendarColumn`): which view is shown, the anchor day, the event open
    in the editor and the event being dragged, together with the event
    store those interactions update. */
module CalendarView {
  import opened Common
  import opened CalendarDate
  import opened IsoDate
  import opened DateGrid
  import opened EventStore
  import opened Projection

  /** The component's own state. */
  datatype Ui = Ui(view: ViewMode, current: Date, editing: Option<Event>, dragged: Option<string>)

  /** The panel: its state and the event store it edits. */
  datatype Calendar = Calendar(ui: Ui, events: seq<Event>)

  /** What the user can do to the panel. Fresh ids, the localised default
      title and the clock's "today" arrive with the action. `Save` carries
      the fields the editor's form produced; the form has no id field. */
  datatype Action =
    | Prev
    | Next
    | Today(now: Date)
    | SwitchView(mode: ViewMode)
    | CellClick(index: int)
    | DragStart(id: string)
    | Drop(dateStr: string, hour: int)
    | DoubleClick(dateStr: string, hour: int, freshId: string, title: string)
    | OpenEditor(event: Event)
    | Save(updated: Event)
    | Delete
    | Close

  /** The panel opens on the week of today, with nothing open or dragged. */
  function Init(now: Date, events: seq<Event>): (c: Calendar)
    requires Valid(now)
    ensures c.ui.view == Week && c.ui.current == now
    ensures c.ui.editing.None? && c.ui.dragged.None? && c.events == events
  {
    Calendar(Ui(Week, now, None, None), events)
  }

  /** JavaScript truthiness of `draggedEventId`: `null` and `""` are both false. */
  predicate Truthy(id: Option<string>) {
    id.Some? && id.value != ""
  }

  /** A clock reading is a real day. */
  predicate ActionOk(a: Action) {
    a.Today? ==> Valid(a.now)
  }

  // ---------------------------------------------------------------------
  // Navigation.

  /** `handlePrev` (`dir == -1`) and `handleNext` (`dir == 1`): a month by
      `setMonth`, a week or a day by `setDate`. */
  function Shift(view: ViewMode, current: Date, dir: int): (d: Date)
    requires Valid(current)
    ensures Valid(d)
    ensures view == Week ==> DayNumber(d) == DayNumber(current) + 7 * dir
    ensures view == Day ==> DayNumber(d) == DayNumber(current) + dir
  {
    match view
    case Month => MakeDate(current.year, current.month - 1 + dir, current.day)
    case Week =>
      MakeDateShift(current, 7 * dir);
      MakeDate(current.year, current.month - 1, current.day + 7 * dir)
    case Day =>
      MakeDateShift(current, dir);
      MakeDate(current.year, current.month - 1, current.day + dir)
  }

  /** The month cell's `onClick`: open the day view on the cell's date.
      Only the month grid has cells to click. */
  function ClickCell(ui: Ui, i: int): (r: Ui)
    requires Valid(ui.current)
    ensures Valid(r.current)
    ensures ui.view == Month && 0 <= i < 42 ==>
      r.view == Day && r.editing == ui.editing && r.dragged == ui.dragged
      && DayNumber(r.current)
         == DayNumber(FirstOfMonth(ui.current)) - StartPad(FirstOfMonth(ui.current)) + i
    ensures !(ui.view == Month && 0 <= i < 42) ==> r == ui
  {
    if ui.view == Month && 0 <= i < 42 then
      ui.(current := MonthDays(ui.current)[i].date, view := Day)
    else ui
  }

  /** `handleDrop(dateStr, hour)`: with a truthy id in flight, move the
      first event carrying it (if any) to the drop target, then end the
      drag. Drop targets are the hour rows of the time grid. */
  function DropOn(c: Calendar, dateStr: string, hour: int): (r: Calendar)
    ensures c.ui.view == Month || !Truthy(c.ui.dragged) ==> r == c
    ensures c.ui.view != Month && Truthy(c.ui.dragged) ==>
      r.ui == c.ui.(dragged := None) && |r.events| == |c.events|
      && forall k :: 0 <= k < |c.events| ==>
           r.events[k]
           == if c.events[k].id != c.ui.dragged.value then c.events[k]
              else c.events[FindIndex(c.events, c.ui.dragged.value).value]
                     .(date := dateStr, startHour := hour)
  {
    var ui := c.ui;
    if ui.view == Month || !Truthy(ui.dragged) then c
    else
      var moved := match Find(c.events, ui.dragged.value)
        case None => c.events
        case Some(ev) => UpdateEvent(c.events, ev.(date := dateStr, startHour := hour));
      Calendar(ui.(dragged := None), moved)
  }

  /** The editor's `onSave`: the edited copy of the open event, which keeps
      the open event's id, is written back by that id, and the editor
      closes. The editor is only on screen while an event is open in it. */
  function SaveEdit(c: Calendar, updated: Event): (r: Calendar)
    ensures c.ui.editing.None? ==> r == c
    ensures c.ui.editing.Some? ==>
      r.ui == c.ui.(editing := None) && |r.events| == |c.events|
      && (forall k :: 0 <= k < |c.events| && c.events[k].id == c.ui.editing.value.id ==>
            r.events[k] == updated.(id := c.ui.editing.value.id))
      && (forall k :: 0 <= k < |c.events| && c.events[k].id != c.ui.editing.value.id ==>
            r.events[k] == c.events[k])
  {
    if c.ui.editing.None? then c
    else Calendar(c.ui.(editing := None), UpdateEvent(c.events, updated.(id := c.ui.editing.value.id)))
  }

  /** The editor's `onDelete(event.id)`: delete the open event's id and close. */
  function DeleteEdit(c: Calendar): (r: Calendar)
    ensures c.ui.editing.None? ==> r == c
    ensures c.ui.editing.Some? ==>
      r.ui == c.ui.(editing := None) && !HasId(r.events, c.ui.editing.value.id)
      && (forall k :: 0 <= k < |c.events| && c.events[k].id != c.ui.editing.value.id ==>
            c.events[k] in r.events)
      && (forall k :: 0 <= k < |r.events| ==> r.events[k] in c.events)
  {
    if c.ui.editing.None? then c
    else Calendar(c.ui.(editing := None), DeleteEvent(c.events, c.ui.editing.value.id))
  }

  // ---------------------------------------------------------------------
  // The transition function.

  function Step(c: Calendar, a: Action): (r: Calendar)
    requires Valid(c.ui.current) && ActionOk(a)
    ensures Valid(r.ui.current)
  {
    var ui := c.ui;
    match a
    case Prev => c.(ui := ui.(current := Shift(ui.view, ui.current, -1)))
    case Next => c.(ui := ui.(current := Shift(ui.view, ui.current, 1)))
    case Today(now) => c.(ui := ui.(current := now))
    case SwitchView(mode) => c.(ui := ui.(view := mode))
    case CellClick(i) => c.(ui := ClickCell(ui, i))
    case DragStart(id) =>
      // Only blocks of the time grid are draggable.
      if ui.view != Month then c.(ui := ui.(dragged := Some(id))) else c
    case Drop(dateStr, hour) => DropOn(c, dateStr, hour)
    case DoubleClick(dateStr, hour, freshId, title) =>
      if ui.view != Month then c.(events := AddEvent(c.events, freshId, title, dateStr, hour)) else c
    case OpenEditor(e) =>
      // Only blocks of stored events are drawn, and only on the time grid.
      if ui.view != Month && e in c.events then c.(ui := ui.(editing := Some(e))) else c
    case Save(updated) => SaveEdit(c, updated)
    case Delete => DeleteEdit(c)
    case Close => c.(ui := ui.(editing := None))
  }

  // ---------------------------------------------------------------------
  // Navigation properties.

  /** Navigation moves only the anchor: the view, the editor, the drag
      and the store are untouched. */
  lemma NavigationKeepsRest(c: Calendar, a: Action)
    requires Valid(c.ui.current) && ActionOk(a)
    requires a.Prev? || a.Next? || a.Today?
    ensures var r := Step(c, a);
      r.ui.view == c.ui.view && r.ui.editing == c.ui.editing
      && r.ui.dragged == c.ui.dragged && r.events == c.events
    ensures a.Today? ==> Step(c, a).ui.current == a.now
  {
  }

  /** In the week view the anchor moves by seven days, in the day view by one. */
  lemma NavigationDistance(c: Calendar)
    requires Valid(c.ui.current) && c.ui.view != Month
    ensures var k := if c.ui.view == Week then 7 else 1;
      Step(c, Next).ui.current == AddDays(c.ui.current, k)
      && Step(c, Prev).ui.current == AddDays(c.ui.current, -k)
  {
    var k := if c.ui.view == Week then 7 else 1;
    AddDaysUnique(c.ui.current, k, Step(c, Next).ui.current);
    AddDaysUnique(c.ui.current, -k, Step(c, Prev).ui.current);
  }

  /** In the week and day views, next undoes prev and prev undoes next. */
  lemma NextUndoesPrev(c: Calendar)
    requires Valid(c.ui.current) && c.ui.view != Month
    ensures Step(Step(c, Prev), Next) == c
    ensures Step(Step(c, Next), Prev) == c
  {
    DayNumberInjective(Step(Step(c, Prev), Next).ui.current, c.ui.current);
    DayNumberInjective(Step(Step(c, Next), Prev).ui.current, c.ui.current);
  }

  /** A day that exists in the month a month index names is kept as it is. */
  lemma MakeDateInRange(year: int, monthIndex: int, day: int)
    requires 1 <= day <= DaysInMonth(CarryYear(year, monthIndex), CarryMonth(monthIndex))
    ensures MakeDate(year, monthIndex, day)
         == Date(CarryYear(year, monthIndex), CarryMonth(monthIndex), day)
  {
  }

  /** Surplus days beyond the end of a month run into the next one. */
  lemma MakeDateOverflow(year: int, monthIndex: int, day: int)
    requires var dim := DaysInMonth(CarryYear(year, monthIndex), CarryMonth(monthIndex));
      dim < day <= dim + 28
    ensures MakeDate(year, monthIndex, day)
         == Date(CarryYear(year, monthIndex + 1), CarryMonth(monthIndex + 1),
                 day - DaysInMonth(CarryYear(year, monthIndex), CarryMonth(monthIndex)))
  {
    var dim := DaysInMonth(CarryYear(year, monthIndex), CarryMonth(monthIndex));
    MakeDateCarry(year, monthIndex, day);
    MakeDateInRange(year, monthIndex + 1, day - dim);
  }

  /** `setMonth(getMonth() + k)` keeps the day of the month when the target
      month has it; otherwise the surplus days run into the month after. */
  lemma MonthShift(d: Date, k: int)
    requires Valid(d)
    ensures var mi := d.month - 1 + k;
      var ty, tm := CarryYear(d.year, mi), CarryMonth(mi);
      var dim := DaysInMonth(ty, tm);
      && (d.day <= dim ==> MakeDate(d.year, mi, d.day) == Date(ty, tm, d.day))
      && (d.day > dim ==>
            MakeDate(d.year, mi, d.day)
            == Date(CarryYear(d.year, mi + 1), CarryMonth(mi + 1), d.day - dim))
  {
    var mi := d.month - 1 + k;
    if d.day <= DaysInMonth(CarryYear(d.year, mi), CarryMonth(mi)) {
      MakeDateInRange(d.year, mi, d.day);
    } else {
      MakeDateOverflow(d.year, mi, d.day);
    }
  }

  /** In the month view, prev and next go to the neighbouring month with
      the day of the month kept when that month has it. */
  lemma MonthNavigation(c: Calendar, dir: int)
    requires Valid(c.ui.current) && c.ui.view == Month && (dir == 1 || dir == -1)
    ensures var d := c.ui.current;
      var mi := d.month - 1 + dir;
      var r := Step(c, if dir == 1 then Next else Prev).ui.current;
      (d.day <= DaysInMonth(CarryYear(d.year, mi), CarryMonth(mi))
       ==> r == Date(CarryYear(d.year, mi), CarryMonth(mi), d.day))
      && (d.day > DaysInMonth(CarryYear(d.year, mi), CarryMonth(mi))
       ==> r.year == CarryYear(d.year, mi + 1) && r.month == CarryMonth(mi + 1))
  {
    MonthShift(c.ui.current, dir);
  }

  /** In the month view, prev then next need not come back: from 31 March
      2025, prev lands on 3 March (February has no 31st) and next on 3 April. */
  lemma MonthPrevNextDrifts()
    ensures var c := Calendar(Ui(Month, Date(2025, 3, 31), None, None), []);
      Step(c, Prev).ui.current == Date(2025, 3, 3)
      && Step(Step(c, Prev), Next).ui.current == Date(2025, 4, 3)
  {
    assert CarryYear(2025, 1) == 2025 && CarryMonth(1) == 2;
    assert CarryYear(2025, 2) == 2025 && CarryMonth(2) == 3;
    assert CarryYear(2025, 3) == 2025 && CarryMonth(3) == 4;
    assert !IsLeapYear(2025);
    assert DaysInMonth(2025, 2) == 28 && DaysInMonth(2025, 4) == 30;
    MakeDateOverflow(2025, 1, 31);
    MakeDateInRange(2025, 3, 3);
  }

  // ---------------------------------------------------------------------
  // View switching and drill-down.

  /** The view buttons change the view and nothing else. */
  lemma SwitchViewOnly(c: Calendar, mode: ViewMode)
    requires Valid(c.ui.current)
    ensures Step(c, SwitchView(mode)) == c.(ui := c.ui.(view := mode))
  {
  }

  /** Clicking a month cell opens the day view on that cell's date. */
  lemma CellClickDrillsDown(c: Calendar, i: int)
    requires Valid(c.ui.current) && c.ui.view == Month && 0 <= i < 42
    ensures var r := Step(c, CellClick(i));
      r.ui.view == Day && r.ui.current == MonthDays(c.ui.current)[i].date
      && r.ui.editing == c.ui.editing && r.ui.dragged == c.ui.dragged && r.events == c.events
  {
    assert Step(c, CellClick(i)) == c.(ui := ClickCell(c.ui, i));
  }

  /** After the drill-down the screen is the one column of the clicked day,
      listing the events the cell summarised. */
  lemma CellClickShowsDay(c: Calendar, i: int)
    requires Valid(c.ui.current) && c.ui.view == Month && 0 <= i < 42
    ensures var r := Step(c, CellClick(i));
      r.ui.view == Day
      && Render(r.events, r.ui.view, r.ui.current).columns
      == [ColumnFor(c.events, MonthDays(c.ui.current)[i].date)]
  {
    var r := Step(c, CellClick(i));
    assert r.ui.view == Day && r.events == c.events;
    assert r.ui.current == MonthDays(c.ui.current)[i].date;
  }

  // ---------------------------------------------------------------------
  // Drag and drop.

  predicate UniqueIds(events: seq<Event>) {
    forall i, j :: 0 <= i < j < |events| ==> events[i].id != events[j].id
  }

  lemma SameIdSamePlace(events: seq<Event>, i: int, j: int)
    requires UniqueIds(events) && 0 <= i < |events| && 0 <= j < |events|
    requires events[i].id == events[j].id
    ensures i == j
  {
  }

  /** Starting a drag in the time grid records the event's id and nothing else. */
  lemma DragStartRecords(c: Calendar, id: string)
    requires Valid(c.ui.current) && c.ui.view != Month
    ensures Step(c, DragStart(id)) == c.(ui := c.ui.(dragged := Some(id)))
  {
  }

  /** With nothing (or the empty id) in flight, a drop changes nothing. */
  lemma DropWithoutDrag(c: Calendar, dateStr: string, hour: int)
    requires Valid(c.ui.current) && !Truthy(c.ui.dragged)
    ensures Step(c, Drop(dateStr, hour)) == c
  {
  }

  /** A drop in the time grid always ends the drag, and leaves the store
      alone when the dragged event is gone. */
  lemma DropEndsDrag(c: Calendar, dateStr: string, hour: int)
    requires Valid(c.ui.current) && c.ui.view != Month && Truthy(c.ui.dragged)
    ensures var r := Step(c, Drop(dateStr, hour));
      r.ui == c.ui.(dragged := None)
      && (!HasId(c.events, c.ui.dragged.value) ==> r.events == c.events)
  {
  }

  /** A drop moves the dragged event: every stored event keeps its title,
      duration, colour and description; only the dragged one changes, and
      only in its date and start hour. */
  lemma DropMovesOnlyDragged(c: Calendar, dateStr: string, hour: int)
    requires Valid(c.ui.current) && c.ui.view != Month && Truthy(c.ui.dragged)
    requires UniqueIds(c.events)
    ensures var r := Step(c, Drop(dateStr, hour)).events;
      var id := c.ui.dragged.value;
      |r| == |c.events|
      && (forall k :: 0 <= k < |r| && c.events[k].id != id ==> r[k] == c.events[k])
      && (forall k :: 0 <= k < |r| && c.events[k].id == id ==>
            r[k] == c.events[k].(date := dateStr, startHour := hour))
  {
    var id := c.ui.dragged.value;
    match Find(c.events, id)
    case None =>
    case Some(ev) =>
      var k0 := FindIndex(c.events, id).value;
      assert ev == c.events[k0];
      forall k | 0 <= k < |c.events| && c.events[k].id == id
        ensures k == k0
      {
        SameIdSamePlace(c.events, k, k0);
      }
  }

  /** After a drop the moved event is listed on the target day and its
      block starts on the target hour row. */
  lemma DropLandsOnTarget(c: Calendar, dateStr: string, hour: int, row: int)
    requires Valid(c.ui.current) && c.ui.view != Month && Truthy(c.ui.dragged)
    requires HasId(c.events, c.ui.dragged.value)
    requires 0 <= row < |Hours| && Hours[row] == hour
    ensures var moved := Find(c.events, c.ui.dragged.value).value.(date := dateStr, startHour := hour);
      moved in EventsOn(Step(c, Drop(dateStr, hour)).events, dateStr)
      && Place(moved).top == row * RowHeight
  {
    var moved := Find(c.events, c.ui.dragged.value).value.(date := dateStr, startHour := hour);
    var r := Step(c, Drop(dateStr, hour)).events;
    var k := FindIndex(c.events, c.ui.dragged.value).value;
    assert r[k] == moved;
  }

  // ---------------------------------------------------------------------
  // The editor.

  /** Saving replaces the open event by the edited copy and closes the
      editor: the open event's id then finds the saved fields, and every
      other event stays as it was. */
  lemma SaveWritesBack(c: Calendar, updated: Event)
    requires Valid(c.ui.current) && c.ui.editing.Some?
    ensures var r := Step(c, Save(updated));
      var id := c.ui.editing.value.id;
      r.ui == c.ui.(editing := None)
      && (HasId(c.events, id) ==> Find(r.events, id) == Some(updated.(id := id)))
      && (forall k :: 0 <= k < |c.events| && c.events[k].id != id ==> r.events[k] == c.events[k])
  {
    var id := c.ui.editing.value.id;
    assert Step(c, Save(updated)) == SaveEdit(c, updated);
    if HasId(c.events, id) {
      UpdateThenFind(c.events, updated.(id := id));
    }
  }

  /** The editor opens only on a stored event, so saving right after
      opening rewrites that very event. */
  lemma OpenThenSave(c: Calendar, k: int, updated: Event)
    requires Valid(c.ui.current) && c.ui.view != Month && 0 <= k < |c.events|
    ensures var r := Step(Step(c, OpenEditor(c.events[k])), Save(updated));
      r.events[k] == updated.(id := c.events[k].id)
  {
  }

  /** Deleting removes every event with the open event's id and closes the editor. */
  lemma DeleteRemovesOpen(c: Calendar)
    requires Valid(c.ui.current) && c.ui.editing.Some?
    ensures var r := Step(c, Delete);
      r.ui == c.ui.(editing := None) && !HasId(r.events, c.ui.editing.value.id)
      && |r.events| == |c.events| - Occurrences(c.events, c.ui.editing.value.id)
  {
    DeleteCount(c.events, c.ui.editing.value.id);
  }

  /** Closing the editor discards the edit. */
  lemma CloseDiscards(c: Calendar)
    requires Valid(c.ui.current)
    ensures Step(c, Close) == c.(ui := c.ui.(editing := None))
  {
  }

  /** A double-click on an hour row appends a one-hour event there, shown
      at the end of that day's column; every other day shows what it showed. */
  lemma DoubleClickAdds(c: Calendar, dateStr: string, hour: int, freshId: string, title: string)
    requires Valid(c.ui.current) && c.ui.view != Month
    ensures var r := Step(c, DoubleClick(dateStr, hour, freshId, title));
      r.ui == c.ui
      && r.events == AddEvent(c.events, freshId, title, dateStr, hour)
      && EventsOn(r.events, dateStr)
         == EventsOn(c.events, dateStr) + [Event(freshId, title, dateStr, hour, 1, EventColors[0], "")]
    ensures var r := Step(c, DoubleClick(dateStr, hour, freshId, title));
      forall other :: other != dateStr ==> EventsOn(r.events, other) == EventsOn(c.events, other)
  {
    EventsOnAfterAdd(c.events, freshId, title, dateStr, hour);
    forall other | other != dateStr
      ensures EventsOn(AddEvent(c.events, freshId, title, dateStr, hour), other) == EventsOn(c.events, other)
    {
      EventsOnAfterAddElsewhere(c.events, freshId, title, dateStr, hour, other);
    }
  }


}
