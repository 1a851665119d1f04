# Scheduling core of the cosy planner, in Dafny

This project models the scheduling engine of the single-page planner
`App.tsx` and proves properties of it:

- the calendar arithmetic behind JavaScript's `Date`, which the app relies on;
- the week and month grids (`getWeekDays`, `getMonthDays`);
- the event store (`updateEvent`, `addEvent`, `deleteEvent`);
- the calendar panel's state machine: navigation, view switch, drill-down,
  drag and drop, the event editor;
- what the panel draws for a store: the time-grid blocks, and the month
  cells with three chips and a `+ N` overflow;
- the identity goals' `addGoalProgress` with its one-time reward, and the
  two "overdue" tests: the goal list's date comparison and the cat
  companion's string comparison;
- the quick-note and inspiration lists.

Dates are proleptic Gregorian triples `Date(year, month, day)` with months
1..12. `DayNumber` counts days from 1970-01-01, and `DayOfWeek` is 0 for
Sunday, as `getDay()` is. `MakeDate(year, monthIndex, day)` is what
`setMonth` and `setDate` compute: the month index is 0-based and
out-of-range months and days carry over. `NewDate` is the constructor
`new Date(y, m, d)`: it is `MakeDate` except that it first reads a year
in 0..99 as 1900 + y. `Format` is the
`YYYY-MM-DD` string `toISOString().split('T')[0]` yields. Years outside
0..9999 get the six-digit signed form. `Parse` reads such a string back.

Each module is one file:

| module | file | models |
|---|---|---|
| `Common` | common.dfy | `Option` |
| `Collections` | collections.dfy | `Array.prototype.map` with a condition, and `filter` |
| `CalendarDate` | calendar_date.dfy | the Gregorian calendar and `Date` normalisation |
| `IsoDate` | iso_date.dfy | the `YYYY-MM-DD` strings and their order |
| `DateGrid` | date_grid.dfy | `getWeekDays` and `getMonthDays` |
| `EventStore` | event_store.dfy | the events and their three updates |
| `Projection` | projection.dfy | `renderTimeGrid` and `renderMonthGrid` |
| `CalendarView` | calendar_view.dfy | the `CalendarColumn` state and handlers |
| `Goals` | goals.dfy | `addGoalProgress`, `isOverdue`, `isCatRunaway` |
| `Notes` | notes.dfy | the todo and idea handlers |

The clock, the random id generator and the localised default title come
in as parameters:

- `Today(now)` carries `new Date()`;
- `DoubleClick` carries the fresh id and the title;
- `IsOverdue` and `IsCatRunaway` take `today`;
- `AddTodo` takes the id, the rotation and `Date.now()`;
- `AddIdea` takes the id and `Date.now()`.

`addGoalProgress` also needs to know whether the companion has registered
its reward callback, so `AddGoalProgress` takes that as the `listening`
flag.

## Model

| member | source | states |
|---|---|---|
| CalendarDate.DayNumberMonotone | App.tsx:993 | Dates are ordered by their day numbers, in both directions. This is the order `<` gives on `Date` objects. |
| CalendarDate.FromDayNumberRoundTrip | App.tsx:228 | Every valid date is recovered from its day number. |
| CalendarDate.AddDays | App.tsx:698-699 | `setDate(getDate() + k)` yields a valid date exactly `k` days later. |
| CalendarDate.MakeDate | App.tsx:697 | `setMonth` and the `Date` constructor carry months into years and days into months. The result is the `day`-th day counted from the 1st of the carried month. |
| CalendarDate.MakeDateShift | App.tsx:698-699 | Moving the day of the month by `k` is adding `k` days, whatever the month boundary. |
| CalendarDate.NewDate | App.tsx:246-262 | The constructor agrees with `MakeDate` outside years 0..99 and reads a year in 0..99 as 1900 + year. |
| IsoDate.Format | App.tsx:228 | The date string of a valid day is its year field, a dash, the two-digit month, a dash and the two-digit day. |
| IsoDate.Parse | App.tsx:993 | A string reads as a date only if it is a real day and ends in the shape `-MM-DD`, whose digits give the month and the day. |
| IsoDate.FormatThenParse | App.tsx:228 | Reading back the date string of any date with a year within ±999999 gives that date. |
| IsoDate.FormatInjective | App.tsx:228 | Two dates have the same date string exactly when they are the same date. |
| IsoDate.LexLessFormat | App.tsx:1108 | For years 0..9999, date strings sort as strings exactly when the dates are in order. |
| DateGrid.WeekStart | App.tsx:231-234 | The week starts on the Monday on or before the anchor. A Sunday goes back six days. |
| DateGrid.DaysFrom | App.tsx:237-241 | The loop's days, the `i`-th being `i` days after the start, and as many as the loop runs. |
| DateGrid.WeekDays | App.tsx:230-242 | Seven dates, the `i`-th being `i` days after that Monday. |
| DateGrid.WeekDaysMondayConsecutive | App.tsx:230-242 | The week opens on a Monday, and each day follows the previous one. |
| DateGrid.WeekDaysContainsAnchor | App.tsx:230-242 | The anchor is shown at its Monday offset. A Sunday anchor ends its own week. |
| DateGrid.WeekDaysStable | App.tsx:230-242 | Taking any shown day as the anchor shows the same week. |
| DateGrid.WeekDaysSameMonday | App.tsx:230-242 | Anchors that share a Monday show the same week. |
| DateGrid.StartPad | App.tsx:250 | The padding before the 1st is less than seven cells. |
| DateGrid.StartPadIsMondayOffset | App.tsx:250 | The padding before the 1st is the 1st's Monday offset. |
| DateGrid.LastDayOfMonth | App.tsx:248 | Day 0 of the next month is the last day of this month. |
| DateGrid.MonthCells | App.tsx:244-265 | The three loops push the padding, the month's days and `42 - days.length` days of the next month, none if that is not positive. The padding is under seven and a month has at most 31 days, so the grid always has exactly 42 cells. |
| DateGrid.MonthCellAt | App.tsx:251-262 | Cell `i` of the grid as written is a padding day counted back from the 1st, then the month's days from the 1st, then the next month's days from its 1st. |
| DateGrid.MonthDays | App.tsx:244-265 | 42 valid consecutive days from the padded Monday. A cell is flagged exactly when it lies in the anchor's year and month. |
| DateGrid.MonthDaysMondayConsecutive | App.tsx:244-265 | The grid opens on a Monday and each cell is the day after the previous one. |
| DateGrid.MonthDaysCurrentMonth | App.tsx:250-254 | The padding cells precede the 1st and are not flagged. The 1st sits at the padding's index. |
| DateGrid.MonthDaysBody | App.tsx:255-258 | Day `k` of the anchor's month sits at index padding + k - 1, flagged. |
| DateGrid.MonthDaysFlags | App.tsx:244-265 | The flagged cells are exactly those between the padding and the end of the month. |
| DateGrid.MonthCellsTwoDigitYear | App.tsx:246-258 | As written, the grid of June of the year 50 flags a day of June 1950. The corrected grid flags only days of the year 50. |
| DateGrid.MonthCellsAsWritten | App.tsx:244-265 | Outside years 0..99 the grid as written equals the corrected grid. |
| EventStore.FindIndex | App.tsx:723 | Finds the first event with the id, or none exactly when no event carries the id. |
| EventStore.Find | App.tsx:723 | Yields the first stored event with the id, or none exactly when no event carries the id. |
| EventStore.UpdateEvent | App.tsx:1379 | The length and order are kept. Events with the id become the update and all others are unchanged. |
| EventStore.AddEvent | App.tsx:1380-1382 | The old list is a prefix, followed by a one-hour event in the first palette colour with the given id, title, date and hour. |
| EventStore.DeleteEvent | App.tsx:1383 | No event with the id remains, every other event survives, and nothing new appears. |
| EventStore.UpdateUnknownId | App.tsx:1379 | An update whose id nobody carries changes nothing. |
| EventStore.UpdateIdempotent | App.tsx:1379 | Applying the same update twice is applying it once. |
| EventStore.UpdateCommute | App.tsx:1379 | Updates of different ids commute. |
| EventStore.UpdateThenFind | App.tsx:1379 | After updating a stored id, finding that id yields the update. |
| EventStore.DeleteIdempotent | App.tsx:1383 | Deleting twice is deleting once. |
| EventStore.DeleteKeepsOrder | App.tsx:1383 | Deletion distributes over concatenation, so the survivors keep their order. |
| EventStore.DeleteUnknownId | App.tsx:1383 | Deleting an id nobody carries changes nothing. |
| EventStore.DeleteCount | App.tsx:1383 | Deletion removes exactly as many events as carry the id. |
| EventStore.AddThenDelete | App.tsx:1380-1383 | Adding then deleting the new id is the same as deleting that id. |
| EventStore.AddThenDeleteFresh | App.tsx:1380-1383 | With a fresh id, adding then deleting restores the list. |
| EventStore.AddThenFind | App.tsx:1380-1382 | With a fresh id, finding it yields the added event. |
| Notes.AddTodo | App.tsx:1365-1367 | A fresh, unfinished note goes in front of the unchanged list. |
| Notes.ToggleTodo | App.tsx:1368 | Notes with the id flip their done mark. All other notes and the order are unchanged. |
| Notes.DeleteTodo | App.tsx:1369 | Removes the notes with the id and keeps all others. |
| Notes.DeleteTodoKeepsOrder | App.tsx:1369 | Deletion distributes over concatenation and drops a single note exactly when it carries the id, so the survivors keep their order and multiplicity. |
| Notes.DeleteTodoCount | App.tsx:1369 | Deletion removes exactly as many notes as carry the id. |
| Notes.ToggleTwice | App.tsx:1368 | Toggling twice restores the list. |
| Notes.AddThenDeleteTodo | App.tsx:1365-1369 | A note added with a fresh id and then deleted leaves the list as it was. |
| Notes.AddIdea | App.tsx:1371-1373 | A fresh idea with the given fields goes in front of the unchanged list. |
| Notes.DeleteIdea | App.tsx:1374 | Removes the ideas with the id and keeps all others. |
| Notes.DeleteIdeaKeepsOrder | App.tsx:1374 | Deletion distributes over concatenation and drops a single idea exactly when it carries the id, so the survivors keep their order and multiplicity. |
| Notes.DeleteIdeaCount | App.tsx:1374 | Deletion removes exactly as many ideas as carry the id. |
| Notes.UpdateIdeaCategory | App.tsx:1375-1377 | Ideas with the id take the category. All others are unchanged. |
| Notes.RecategoriseTwice | App.tsx:1375-1377 | The last recategorisation wins. |
| Notes.AddThenDeleteIdea | App.tsx:1371-1374 | An idea added with a fresh id and then deleted leaves the list as it was. |
| Projection.EventsOn | App.tsx:775-776 | A day's events are the stored events with that date string, all of them and no others. Their number is the store's size less the events of other days. |
| Projection.EventsOnSingle | App.tsx:775-776 | A single event is listed on its own day, once, and on no other. |
| Projection.EventsOnKeepsOrder | App.tsx:775-776 | A day's events keep their store order. |
| Projection.EventsOnAfterAdd | App.tsx:771 | A double-click appends the new event at the end of its own day. |
| Projection.EventsOnAfterAddElsewhere | App.tsx:771 | A double-click leaves every other day's list unchanged. |
| Projection.Place | App.tsx:784-787 | A block's top and bottom edges lie 5rem per hour below the 8:00 row, at its start hour and at its end hour, for every event. When those hours are rows of the grid, the edges are those rows. |
| Projection.PlaceOverlap | App.tsx:784-787 | Two blocks overlap on screen exactly when their hour spans overlap. |
| Projection.ColumnFor | App.tsx:753-788 | A column carries its date, its date string, and one placed block per event of that day, in order. |
| Projection.CellContent | App.tsx:844-855 | The first three of the day's events, or all of them if there are fewer, as chips. `+ N` appears exactly when there are more than three, and then N is the number left over. |
| Projection.Render | App.tsx:736-740 | The body is a month grid exactly in the month view. Otherwise it holds seven columns for the anchor's week, or the anchor's single column. Each month cell lists its own date's events. |
| Projection.MonthDateStringsDistinct | App.tsx:815-816 | The 42 cells carry 42 different date strings. |
| Projection.MonthEventAtMostOnce | App.tsx:815-816 | No event is listed in two different cells of the month grid. |
| Projection.WeekEventAtMostOnce | App.tsx:753-776 | No event is drawn in two different columns of the week. |
| Projection.MonthEventShown | App.tsx:815-855 | An event dated on a cell is one of its chips or is counted in its `+ N`. |
| CalendarView.Init | App.tsx:690-693 | The panel opens in the week view on today, with nothing being edited or dragged. |
| CalendarView.Shift | App.tsx:695-709 | Prev and next move the anchor by ±7 days in the week view and ±1 day in the day view, and always yield a valid date. |
| CalendarView.Step | App.tsx:690-734 | Every action keeps the anchor a valid date. |
| CalendarView.NavigationKeepsRest | App.tsx:695-711 | Prev, next and today change only the anchor, and today sets it to the clock's date. |
| CalendarView.NavigationDistance | App.tsx:695-709 | In the week and day views, next and prev add and subtract 7 or 1 days. |
| CalendarView.NextUndoesPrev | App.tsx:695-709 | In the week and day views, next and prev are mutually inverse. |
| CalendarView.MonthShift | App.tsx:697 | `setMonth(getMonth() + k)` keeps the day if the target month has it. Otherwise the surplus runs into the month after. |
| CalendarView.MonthNavigation | App.tsx:697 | In the month view, prev and next reach the neighbouring month, keeping the day when it exists there. |
| CalendarView.MonthPrevNextDrifts | App.tsx:695-709 | In the month view, prev then next from 2025-03-31 ends on 2025-04-03, not back on the start. |
| CalendarView.SwitchViewOnly | App.tsx:904 | The view buttons change the view and nothing else. |
| CalendarView.ClickCell | App.tsx:833-836 | In the month view, a click on one of the 42 cells opens the day view on the `i`-th day of the grid and leaves the editor and the drag alone. Otherwise it changes nothing. |
| CalendarView.CellClickDrillsDown | App.tsx:833-836 | A cell click opens the day view on the cell's date and changes nothing else. |
| CalendarView.CellClickShowsDay | App.tsx:833-836 | After the drill-down the screen is the single column of that date. |
| CalendarView.DragStartRecords | App.tsx:713-714 | Starting a drag records the id and nothing else. |
| CalendarView.DropOn | App.tsx:721-733 | Without a truthy id in flight, or in the month view, nothing changes. Otherwise the drag ends, and every event with the id becomes the first such event moved to the target date and hour. All other events stay. |
| CalendarView.DropWithoutDrag | App.tsx:721-723 | With no id in flight, or the empty id, a drop changes nothing. |
| CalendarView.DropEndsDrag | App.tsx:721-733 | A drop clears the dragged id. It leaves the store alone when the dragged event is gone. |
| CalendarView.DropMovesOnlyDragged | App.tsx:721-733 | With distinct ids, only the dragged event changes, and only in its date and start hour. |
| CalendarView.DropLandsOnTarget | App.tsx:721-733 | The moved event is listed on the target day and its block starts on the target hour row. |
| CalendarView.SaveEdit | App.tsx:875-878 | With an event open, the edited copy keeps the open event's id and replaces the events with that id. All others stay, and the editor closes. |
| CalendarView.SaveWritesBack | App.tsx:875-878 | Saving closes the editor. The open event's id then finds the saved fields, and every other event is unchanged. |
| CalendarView.OpenThenSave | App.tsx:782 | The editor opens only on a stored event, so saving right after opening rewrites that event. |
| CalendarView.DeleteEdit | App.tsx:879-882 | With an event open, no event with its id remains, all others survive, nothing new appears, and the editor closes. |
| CalendarView.DeleteRemovesOpen | App.tsx:879-882 | Deleting closes the editor and removes exactly the events with the open event's id. |
| CalendarView.CloseDiscards | App.tsx:883 | Closing the editor changes nothing but the editor. |
| CalendarView.DoubleClickAdds | App.tsx:771 | A double-click appends a one-hour event to the store, at the end of that day's column, and every other day's column is unchanged. |
| Goals.Bump | App.tsx:1392 | The new progress is at most 100 and at most ten more, and it is exactly ten more unless capped at 100. |
| Goals.FiresIff | App.tsx:1394 | The reward condition holds exactly for progress 90..99. |
| Goals.BumpInRange | App.tsx:1392 | Progress within 0..100 stays there and never decreases. |
| Goals.RewardOnce | App.tsx:1392-1394 | After the reward fires, further bumps stay at 100 and never fire again. |
| Goals.Fired | App.tsx:1389-1398 | The count of fired goals is positive exactly when some goal with the id meets the reward condition. |
| Goals.BumpGoals | App.tsx:1389-1398 | Goals with the id are bumped and the others are unchanged. It fires exactly when a targeted goal meets the condition. |
| Goals.Rewards | App.tsx:1385-1401 | The callback runs exactly when it is registered and some section with the id has a goal that fires. |
| Goals.AddGoalProgress | App.tsx:1385-1401 | Only the sections with the id change, by bumping their goals. The reward is paid exactly when the callback is registered and some targeted goal crosses to 100. |
| Goals.FiresAtMostOnce | App.tsx:1389-1398 | With distinct goal ids, at most one goal of a section fires. |
| Goals.RewardAtMostOnce | App.tsx:1385-1401 | With distinct section and goal ids, one click pays the reward at most once. |
| Goals.IsOverdue | App.tsx:993 | Comparing time values is comparing calendar order: overdue exactly when the deadline is set, reads as a date before today, and the goal is unfinished. |
| Goals.SomeLate | App.tsx:1108 | Some goal of the list has a deadline string sorting before today's and is unfinished. |
| Goals.IsCatRunaway | App.tsx:1105-1110 | The cat runs away exactly when some goal of some section is late by the string test against the day it is given, which in the source is the day the memo last ran. |
| Goals.LateIffOverdue | App.tsx:993 | For four-digit years, the companion's string test and the goal list's date test agree. |
| Goals.RunawayIffSomeOverdue | App.tsx:1105-1110 | While every deadline has a four-digit year and both tests read the same day, the cat runs away exactly when some goal shows as overdue. |
| Goals.FiveDigitYearUnread | App.tsx:993 | The ISO date form does not read a date-input value with a five-digit year. |
| Goals.FarDeadlineDisagrees | App.tsx:1106-1108 | An unfinished goal whose date-input deadline lies in years 10000..19999 is late for the cat on any day of 2000..9999, but not overdue in the list. |

## Left out

- Time zones. `toISOString` works in UTC, while `new Date(y, m, d)`,
  `getDay`, `setDate` and `toDateString` use local time. The model is one
  calendar, as if local time were UTC. Outside UTC the source departs
  from it in these ways:
  - East of UTC, for example UTC+8, the month cells are built at local
    midnight, which is the previous day in UTC. So every cell is keyed to,
    and lists, the previous day's events.
  - The day view opened by a cell click is keyed one day early in the
    same way. A double-click there adds the event to the previous day.
  - The week and day columns keep the anchor's time of day. They are keyed
    one day off whenever the local and UTC dates differ at that time.
  - `isOverdue` compares a deadline read as UTC midnight with local
    midnight. West of UTC, a goal due today already shows as overdue in
    the list, while the cat's string test does not count it as late.
  - So `Goals.LateIffOverdue` and `Goals.RunawayIffSomeOverdue` hold only
    where local time is UTC.
- The `Date` range limit of ±8.64e15 ms and invalid dates produced by
  arithmetic. Years are unbounded here.
- `Date.parse` leniency. `IsOverdue` reads a deadline only in the
  `YYYY-MM-DD` form and treats every other string as not a date. Browsers
  also accept other forms. A five-digit year such as `10000-01-01` lies
  outside the ECMAScript date time string format, so reading it is up to
  the implementation. A fallback parser that reads it as the year 10000
  still finds that day after today, so the list shows no overdue goal
  either way.
- Number input. `startHour` and `duration` are JavaScript numbers that
  the editor sets with `Number(e.target.value)`, so a typed duration can
  be fractional or `NaN`. The model keeps them as integers.
- `generateId`, `getRandomRotation`, `Date.now()` and the localised
  `t.newEvent`. They are parameters.
- Persistence to `localStorage` and the unguarded `JSON.parse` when
  loading.
- Speech synthesis, `dataTransfer`, `setTimeout`, and the companion's
  messages and search.
- Rendering details: localised day names, `headerTitle`, `isToday`
  highlighting, CSS, and the hour labels.
- Section and goal editing other than `addGoalProgress`: `addSection`,
  `deleteSection`, `updateSectionTitle`, `addGoal`, `updateGoal`. They
  are outside the scheduling core.
- React's StrictMode double invocation of state updaters, which can run
  the reward callback twice in development.
- CalendarView.Step: drag start, drop, double-click and block click exist
  only on the time grid, so in the month view they are no-ops. The source
  offers no such gesture there. A block click with an event that is not
  stored is a no-op too, because the source draws only stored events.
- CalendarView.SaveEdit: the editor's form has no id field, so `Save`
  carries the edited fields and the model writes them under the open
  event's id.
- CalendarView.Step: a cell click outside the 42 cells, or outside the
  month view, is a no-op.
- Projection.MonthDateStringsDistinct: needs years within ±999998.
  Farther out the date string is not modelled.
- Projection.MonthEventAtMostOnce: needs years within ±999998.
  Farther out the date string is not modelled.
- Projection.WeekEventAtMostOnce: needs years within ±999998. Farther out
  the date string is not modelled.
- Goals.RunawayIffSomeOverdue: assumes the cat and the goal list read the
  same day. The cat's `useMemo` recomputes only when `identitySections`
  changes, so its `todayStr` is the date of the last section change. The
  list's `isOverdue` reads the clock at every render. After midnight with
  no section edit, a goal due yesterday shows as overdue while the cat
  stays.
- Goals.LateIffOverdue: needs deadlines and today within years 0..9999.
  `Goals.FarDeadlineDisagrees` shows what happens past that range.
- DateGrid.MonthDays: the month body and the cell-click drill-down use the
  corrected grid. For anchors in years 0..99 the source shows, and drills
  down to, days of 1900..1999 instead. `DateGrid.MonthCellsAsWritten`
  proves the two grids equal for every other year.

## Findings

| source | as written | input that shows it | evidently intended | confidence | as-written member | corrected member |
|---|---|---|---|---|---|---|
| App.tsx:246-262 | `getMonthDays` builds every cell with `new Date(year, month, d)`. The constructor reads years 0..99 as 1900..1999. | An anchor in June of the year 50: the grid flags days of June 1950. | The grid shows the anchor's own month. | not executed | DateGrid.MonthCellsTwoDigitYear | DateGrid.MonthDays |
