/** The two day lists the calendar draws: the Monday-started week around
    the anchor date (`getWeekDays`) and the fixed six-row month grid
    (`getMonthDays`). */
module DateGrid {
  import opened CalendarDate

  /** Position of `d` in its Monday-started week: 0 for Monday through 6 for Sunday. */
  function MondayOffset(d: Date): (k: int)
    requires 1 <= d.month <= 12
    ensures 0 <= k < 7
  {
    (DayOfWeek(d) + 6) % 7
  }

  /** Modular core of `MondayBefore`, on day numbers shifted by four. */
  lemma MondayArith(n: int)
    ensures (n - ((n + 4) % 7 + 6) % 7 + 4) % 7 == 1
  {
    var q, w := (n + 4) / 7, (n + 4) % 7;
    assert n + 4 == 7 * q + w;
    if w == 0 {
      assert n - (w + 6) % 7 + 4 == 7 * (q - 1) + 1;
    } else {
      assert n - (w + 6) % 7 + 4 == 7 * q + 1;
    }
  }

  /** Stepping back by the Monday offset lands on a Monday. */
  lemma MondayBefore(n: int)
    ensures Weekday(n - (Weekday(n) + 6) % 7) == 1
  {
    WeekdayMod(n);
    WeekdayMod(n - (Weekday(n) + 6) % 7);
    MondayArith(n);
  }

  /** The Monday on or before `d`. */
  lemma MondayOfDate(d: Date)
    requires 1 <= d.month <= 12
    ensures Weekday(DayNumber(d) - MondayOffset(d)) == 1
  {
    MondayBefore(DayNumber(d));
  }

  /** Modular core of `OffsetFromMonday`. */
  lemma OffsetArith(n: int, i: int)
    requires (n + 4) % 7 == 1 && 0 <= i < 7
    ensures ((n + i + 4) % 7 + 6) % 7 == i
  {
    var q := (n + 4) / 7;
    assert n + 4 == 7 * q + 1;
    if i == 6 {
      assert n + i + 4 == 7 * (q + 1);
    } else {
      assert n + i + 4 == 7 * q + (i + 1);
    }
  }

  /** Counting forward from a Monday, the `i`-th day has Monday offset `i`. */
  lemma OffsetFromMonday(n: int, i: int)
    requires Weekday(n) == 1 && 0 <= i < 7
    ensures (Weekday(n + i) + 6) % 7 == i
  {
    WeekdayMod(n);
    WeekdayMod(n + i);
    OffsetArith(n, i);
  }

  // ---------------------------------------------------------------------
  // getWeekDays

  /** `start.setDate(start.getDate() - day + (day === 0 ? -6 : 1))`: the
      Monday on or before `current`. */
  function WeekStart(current: Date): (start: Date)
    requires Valid(current)
    ensures Valid(start)
    ensures DayNumber(start) == DayNumber(current) - MondayOffset(current)
  {
    var day := DayOfWeek(current);
    var diff := current.day - day + (if day == 0 then -6 else 1);
    assert diff - current.day == -MondayOffset(current) by {
      PadArith(day);
    }
    MakeDateShift(current, -MondayOffset(current));
    MakeDate(current.year, current.month - 1, diff)
  }

  /** The loop `for (i = from; i < n; i++)` pushing `start` moved by
      `setDate(start.getDate() + i)`. */
  function DaysFrom(start: Date, from: int, n: int): (days: seq<Date>)
    requires Valid(start)
    ensures |days| == (if from < n then n - from else 0)
    ensures forall i :: 0 <= i < |days| ==>
      Valid(days[i]) && DayNumber(days[i]) == DayNumber(start) + from + i
    decreases n - from
  {
    if from >= n then []
    else
      MakeDateShift(start, from);
      [MakeDate(start.year, start.month - 1, start.day + from)] + DaysFrom(start, from + 1, n)
  }

  function WeekDays(current: Date): (days: seq<Date>)
    requires Valid(current)
    ensures |days| == 7
    ensures forall i :: 0 <= i < 7 ==>
      Valid(days[i]) && DayNumber(days[i]) == DayNumber(current) - MondayOffset(current) + i
  {
    DaysFrom(WeekStart(current), 0, 7)
  }

  // ---------------------------------------------------------------------
  // getMonthDays

  datatype Cell = Cell(date: Date, isCurrentMonth: bool)

  /** The year `new Date(year, ...)` counts from; `quirk` says whether the
      constructor's reading of years 0..99 as 1900 + year applies. */
  function CtorYear(quirk: bool, year: int): int {
    if quirk && 0 <= year <= 99 then 1900 + year else year
  }

  /** The date `new Date(year, monthIndex, day)` builds, with or without the
      two-digit-year reading. */
  function GridDate(quirk: bool, year: int, monthIndex: int, day: int): (d: Date)
    ensures Valid(d)
    ensures quirk ==> d == NewDate(year, monthIndex, day)
    ensures !quirk ==> d == MakeDate(year, monthIndex, day)
  {
    MakeDate(CtorYear(quirk, year), monthIndex, day)
  }

  /** `firstDay.getDay() === 0 ? 6 : firstDay.getDay() - 1` */
  function StartPad(firstDay: Date): (pad: nat)
    requires Valid(firstDay)
    ensures pad < 7
  {
    if DayOfWeek(firstDay) == 0 then 6 else DayOfWeek(firstDay) - 1
  }

  /** The padding before the 1st is its Monday offset, the same count
      `getWeekDays` steps back by. */
  lemma StartPadIsMondayOffset(firstDay: Date)
    requires Valid(firstDay)
    ensures StartPad(firstDay) == MondayOffset(firstDay)
  {
    PadArith(DayOfWeek(firstDay));
  }

  lemma PadArith(w: int)
    requires 0 <= w < 7
    ensures (w + 6) % 7 == if w == 0 then 6 else w - 1
  {
  }

  /** Cell `i` of the grid `getMonthDays` pushes. Its three loops fill
      consecutive ranges: `new Date(year, month, 1 - k)` for `k` from
      `startPad` down to 1, then `new Date(year, month, k)` for `k` from 1 to
      `lastDay`, then `new Date(year, month + 1, k)` for `k` from 1 up to
      what makes 42 cells. */
  function GridCell(quirk: bool, year: int, month: int, startPad: int, lastDay: int, i: int): Cell {
    var y := CtorYear(quirk, year);
    LoopCell(PushCell(y, month, false), PushCell(y, month, true), PushCell(y, month + 1, false),
             startPad, lastDay, i)
  }

  /** Cell `i` of the three loops: a padding cell counted back from the
      1st, a day of the month, or a day of the next month. */
  function LoopCell(lead: int -> Cell, body: int -> Cell, trail: int -> Cell, startPad: int, lastDay: int, i: int): Cell {
    if i < startPad then lead(1 - startPad + i)
    else if i < startPad + lastDay then body(i - startPad + 1)
    else trail(i - startPad - lastDay + 1)
  }

  /** `getMonthDays` as written; `quirk` selects whether `new Date(year,
      month, d)` applies the constructor's reading of years 0..99. The three
      loops push the padding before the 1st, the days up to `lastDay`, and
      then `remaining = 42 - days.length` days of the next month, none when
      `remaining` is not positive. The padding is under 7 and a month has at
      most 31 days, so the grid always ends up with 42 cells, cell `i`
      being `GridCell(..., i)`. */
  function MonthCells(current: Date, quirk: bool): (cells: seq<Cell>)
    requires Valid(current)
    ensures |cells| == 42
  {
    var year, month := current.year, current.month - 1;
    var firstDay := GridDate(quirk, year, month, 1);
    var lastDay := GridDate(quirk, year, month + 1, 0);
    var y := CtorYear(quirk, year);
    LoopCells(PushCell(y, month, false), PushCell(y, month, true), PushCell(y, month + 1, false),
              StartPad(firstDay), lastDay.day)
  }

  /** The cell the loops push for day argument `d`, once the constructor
      has settled the year at `fullYear`. */
  function PushCell(fullYear: int, monthIndex: int, flag: bool): int -> Cell {
    (d: int) => Cell(MakeDate(fullYear, monthIndex, d), flag)
  }

  /** The cells a loop pushes when it runs `n` times, the `k`-th push
      being `at(first + k)`. */
  function Run(at: int -> Cell, first: int, n: nat): (r: seq<Cell>)
    ensures |r| == n
  {
    if n == 0 then [] else Run(at, first, n - 1) + [at(first + n - 1)]
  }

  /** The `k`-th cell of a run is its `k`-th push. */
  lemma {:induction false} RunAt(at: int -> Cell, first: int, n: nat, k: int)
    requires 0 <= k < n
    ensures Run(at, first, n)[k] == at(first + k)
  {
    if k < n - 1 {
      RunAt(at, first, n - 1, k);
    }
  }

  /** How often `for (let i = 1; i <= bound; i++)` runs: never when
      `bound` is not positive. */
  function Iterations(bound: int): (n: nat)
    ensures n == 0 || n == bound
  {
    if bound > 0 then bound else 0
  }

  /** The cells the three loops push for a padding of `startPad` and a
      month of `lastDay` days: `lead`, `body` and `trail` build the cells of
      the padding, of the month and of the next month from a day argument. */
  function LoopCells(lead: int -> Cell, body: int -> Cell, trail: int -> Cell, startPad: nat, lastDay: nat): (cells: seq<Cell>)
    requires startPad < 7 && lastDay <= 31
    ensures |cells| == 42
  {
    Run(lead, 1 - startPad, startPad) + Run(body, 1, lastDay) + Run(trail, 1, Iterations(42 - (startPad + lastDay)))
  }

  /** The cells the three loops push are consecutive ranges. */
  lemma LoopCellsAt(lead: int -> Cell, body: int -> Cell, trail: int -> Cell, startPad: nat, lastDay: nat, i: int)
    requires startPad < 7 && lastDay <= 31 && 0 <= i < 42
    ensures LoopCells(lead, body, trail, startPad, lastDay)[i] == LoopCell(lead, body, trail, startPad, lastDay, i)
  {
    var leading := Run(lead, 1 - startPad, startPad);
    var middle := Run(body, 1, lastDay);
    var trailing := Run(trail, 1, Iterations(42 - (startPad + lastDay)));
    var cells := LoopCells(lead, body, trail, startPad, lastDay);
    assert cells == leading + middle + trailing;
    if i < startPad {
      RunAt(lead, 1 - startPad, startPad, i);
      assert cells[i] == leading[i];
    } else if i < startPad + lastDay {
      RunAt(body, 1, lastDay, i - startPad);
      assert cells[i] == middle[i - startPad];
    } else {
      RunAt(trail, 1, Iterations(42 - (startPad + lastDay)), i - startPad - lastDay);
      assert cells[i] == trailing[i - startPad - lastDay];
    }
  }

  /** Cell `i` of the grid as written is the `i`-th of the padded run. */
  lemma MonthCellAt(current: Date, quirk: bool, i: int)
    requires Valid(current) && 0 <= i < 42
    ensures var year, month := current.year, current.month - 1;
      MonthCells(current, quirk)[i]
      == GridCell(quirk, year, month, StartPad(GridDate(quirk, year, month, 1)),
                  GridDate(quirk, year, month + 1, 0).day, i)
  {
    var year, month := current.year, current.month - 1;
    var y := CtorYear(quirk, year);
    LoopCellsAt(PushCell(y, month, false), PushCell(y, month, true), PushCell(y, month + 1, false),
                StartPad(GridDate(quirk, year, month, 1)), GridDate(quirk, year, month + 1, 0).day, i);
  }

  /** The first day of the month `d` lies in. */
  function FirstOfMonth(d: Date): Date {
    Date(d.year, d.month, 1)
  }

  /** The month grid, with the constructor's two-digit-year reading left out. */
  function MonthDays(current: Date): (cells: seq<Cell>)
    requires Valid(current)
    ensures |cells| == 42
    ensures forall i :: 0 <= i < 42 ==>
      Valid(cells[i].date)
      && DayNumber(cells[i].date)
         == DayNumber(FirstOfMonth(current)) - StartPad(FirstOfMonth(current)) + i
    ensures forall i :: 0 <= i < 42 ==>
      (cells[i].isCurrentMonth
       <==> cells[i].date.year == current.year && cells[i].date.month == current.month)
  {
    MonthCellsShape(current);
    MonthCells(current, false)
  }

  /** Without the two-digit-year reading, `firstDay` is the 1st and
      `lastDay` the last day of the anchor's month. */
  lemma MonthCellsFrame(current: Date)
    requires Valid(current)
    ensures forall i :: 0 <= i < 42 ==>
      MonthCells(current, false)[i]
      == GridCell(false, current.year, current.month - 1, StartPad(FirstOfMonth(current)),
                  DaysInMonth(current.year, current.month), i)
  {
    var y, m := current.year, current.month;
    assert GridDate(false, y, m - 1, 1) == Date(y, m, 1) by {
      MakeDateExact(y, m - 1, 1);
    }
    assert GridDate(false, y, m - 1 + 1, 0) == Date(y, m, DaysInMonth(y, m)) by {
      LastDayOfMonth(y, m);
    }
    forall i | 0 <= i < 42
      ensures MonthCells(current, false)[i]
        == GridCell(false, y, m - 1, StartPad(FirstOfMonth(current)), DaysInMonth(y, m), i)
    {
      MonthCellAt(current, false, i);
    }
  }

  /** `new Date(year, month + 1, 0)` is the last day of `month`. */
  lemma LastDayOfMonth(y: int, m: int)
    requires 1 <= m <= 12
    ensures MakeDate(y, m, 0) == Date(y, m, DaysInMonth(y, m))
  {
    var dim := DaysInMonth(y, m);
    MakeDateCarry(y, m - 1, dim);
    assert CarryYear(y, m - 1) == y && CarryMonth(m - 1) == m;
    MakeDateExact(y, m - 1, dim);
  }

  /** Cell `i` of the corrected grid: the `i`-th day counted from the
      Monday on or before the 1st, flagged exactly in the anchor's month. */
  lemma GridCellAt(y: int, m: int, i: int)
    requires 1 <= m <= 12 && 0 <= i < 42
    ensures var pad, dim := StartPad(Date(y, m, 1)), DaysInMonth(y, m);
      var c := GridCell(false, y, m - 1, pad, dim, i);
      && Valid(c.date)
      && DayNumber(c.date) == DayNumber(Date(y, m, 1)) - pad + i
      && (c.isCurrentMonth <==> pad <= i < pad + dim)
  {
    var pad, dim := StartPad(Date(y, m, 1)), DaysInMonth(y, m);
    assert CarryYear(y, m - 1) == y && CarryMonth(m - 1) == m;
    if pad + dim <= i {
      NextMonthStart(y, m - 1);
    }
  }

  lemma MonthCellsShape(current: Date)
    requires Valid(current)
    ensures |MonthCells(current, false)| == 42
    ensures forall i :: 0 <= i < 42 ==>
      var c := MonthCells(current, false)[i];
      Valid(c.date)
      && DayNumber(c.date) == DayNumber(FirstOfMonth(current)) - StartPad(FirstOfMonth(current)) + i
      && (c.isCurrentMonth <==> c.date.year == current.year && c.date.month == current.month)
  {
    MonthCellsFrame(current);
    InMonthSpanAll(current.year, current.month);
    forall i | 0 <= i < 42
      ensures var c := MonthCells(current, false)[i];
        Valid(c.date)
        && DayNumber(c.date) == DayNumber(FirstOfMonth(current)) - StartPad(FirstOfMonth(current)) + i
        && (c.isCurrentMonth <==> c.date.year == current.year && c.date.month == current.month)
    {
      GridCellAt(current.year, current.month, i);
    }
  }

  lemma InMonthSpanAll(y: int, m: int)
    requires 1 <= m <= 12
    ensures forall d :: Valid(d) ==>
      ((d.year == y && d.month == m)
       <==> DayNumber(Date(y, m, 1)) <= DayNumber(d) < DayNumber(Date(y, m, 1)) + DaysInMonth(y, m))
  {
    forall d | Valid(d)
      ensures (d.year == y && d.month == m)
        <==> DayNumber(Date(y, m, 1)) <= DayNumber(d) < DayNumber(Date(y, m, 1)) + DaysInMonth(y, m)
    {
      InMonthSpan(d, y, m);
    }
  }

  // ---------------------------------------------------------------------
  // Properties of the week.

  /** Monday offset 0 means Monday. */
  lemma MondayOffsetZero(d: Date)
    requires 1 <= d.month <= 12 && MondayOffset(d) == 0
    ensures DayOfWeek(d) == 1
  {
  }

  /** The week starts on a Monday and runs over seven consecutive days. */
  lemma WeekDaysMondayConsecutive(current: Date)
    requires Valid(current)
    ensures DayOfWeek(WeekDays(current)[0]) == 1
    ensures forall i :: 0 <= i < 6 ==> WeekDays(current)[i + 1] == AddDays(WeekDays(current)[i], 1)
  {
    var days := WeekDays(current);
    MondayOffsetAfter(days[0], current, 0);
    MondayOffsetZero(days[0]);
    forall i | 0 <= i < 6
      ensures days[i + 1] == AddDays(days[i], 1)
    {
      AddDaysUnique(days[i], 1, days[i + 1]);
    }
  }

  /** The anchor sits at its Monday offset; a Sunday anchor closes its own week. */
  lemma WeekDaysContainsAnchor(current: Date)
    requires Valid(current)
    ensures WeekDays(current)[MondayOffset(current)] == current
    ensures DayOfWeek(current) == 0 ==> WeekDays(current)[6] == current
    ensures DayOfWeek(current) == 1 ==> WeekDays(current)[0] == current
  {
    var k := MondayOffset(current);
    var shown := WeekDays(current)[k];
    DayNumberInjective(shown, current);
    PadArith(DayOfWeek(current));
  }

  /** Two anchors whose Mondays coincide display the same week. */
  lemma WeekDaysSameMonday(a: Date, b: Date)
    requires Valid(a) && Valid(b)
    requires DayNumber(a) - MondayOffset(a) == DayNumber(b) - MondayOffset(b)
    ensures WeekDays(a) == WeekDays(b)
  {
    DayNumberInjective(WeekStart(a), WeekStart(b));
  }

  /** A day `i` days after the Monday on or before `current` has Monday offset `i`. */
  lemma MondayOffsetAfter(d: Date, current: Date, i: int)
    requires Valid(d) && Valid(current) && 0 <= i < 7
    requires DayNumber(d) == DayNumber(current) - MondayOffset(current) + i
    ensures MondayOffset(d) == i
  {
    MondayOfDate(current);
    OffsetFromMonday(DayNumber(current) - MondayOffset(current), i);
  }

  /** Any day of a displayed week displays that same week. */
  lemma WeekDaysStable(current: Date, i: int)
    requires Valid(current) && 0 <= i < 7
    ensures WeekDays(WeekDays(current)[i]) == WeekDays(current)
  {
    var d := WeekDays(current)[i];
    MondayOffsetAfter(d, current, i);
    WeekDaysSameMonday(d, current);
  }

  // ---------------------------------------------------------------------
  // Properties of the month grid.

  /** Stepping back from the 1st by its padding lands on a Monday. */
  lemma PadStartIsMonday(d: Date, first: Date)
    requires Valid(d) && Valid(first)
    requires DayNumber(d) == DayNumber(first) - StartPad(first)
    ensures DayOfWeek(d) == 1
  {
    StartPadIsMondayOffset(first);
    MondayOfDate(first);
  }

  /** The grid opens on a Monday and runs over 42 consecutive days. */
  lemma MonthDaysMondayConsecutive(current: Date)
    requires Valid(current)
    ensures DayOfWeek(MonthDays(current)[0].date) == 1
    ensures forall i :: 0 <= i < 41 ==>
      MonthDays(current)[i + 1].date == AddDays(MonthDays(current)[i].date, 1)
  {
    var cells := MonthDays(current);
    PadStartIsMonday(cells[0].date, FirstOfMonth(current));
    forall i | 0 <= i < 41
      ensures cells[i + 1].date == AddDays(cells[i].date, 1)
    {
      AddDaysUnique(cells[i].date, 1, cells[i + 1].date);
    }
  }

  /** The leading padding is the Monday offset of the 1st; after it come
      days 1..daysInMonth of the anchor's month, in order, each marked as
      the current month, and only they are so marked. */
  lemma MonthDaysCurrentMonth(current: Date)
    requires Valid(current)
    ensures var pad := StartPad(FirstOfMonth(current));
      var dim := DaysInMonth(current.year, current.month);
      && pad + dim <= 42
      && (forall k :: 1 <= k <= dim ==>
            MonthDays(current)[pad + k - 1] == Cell(Date(current.year, current.month, k), true))
      && (forall i :: 0 <= i < 42 ==> (MonthDays(current)[i].isCurrentMonth <==> pad <= i < pad + dim))
  {
    MonthDaysBody(current);
    MonthDaysFlags(current);
  }

  /** The days of the anchor's month follow the padding, in order. */
  lemma MonthDaysBody(current: Date)
    requires Valid(current)
    ensures forall k :: 1 <= k <= DaysInMonth(current.year, current.month) ==>
      MonthDays(current)[StartPad(FirstOfMonth(current)) + k - 1]
      == Cell(Date(current.year, current.month, k), true)
  {
    var y, m := current.year, current.month;
    MonthCellsFrame(current);
    forall k | 1 <= k <= DaysInMonth(y, m)
      ensures MonthDays(current)[StartPad(FirstOfMonth(current)) + k - 1] == Cell(Date(y, m, k), true)
    {
      GridCellBody(y, m, StartPad(FirstOfMonth(current)), k);
    }
  }

  /** A cell of the middle loop shows the day it counts. */
  lemma GridCellBody(y: int, m: int, pad: int, k: int)
    requires 1 <= m <= 12 && 1 <= k <= DaysInMonth(y, m) && 0 <= pad
    ensures GridCell(false, y, m - 1, pad, DaysInMonth(y, m), pad + k - 1) == Cell(Date(y, m, k), true)
  {
    MakeDateExact(y, m - 1, k);
  }

  /** Exactly the cells after the padding and within the month's length
      are flagged as the current month. */
  lemma MonthDaysFlags(current: Date)
    requires Valid(current)
    ensures forall i :: 0 <= i < 42 ==>
      (MonthDays(current)[i].isCurrentMonth
       <==> StartPad(FirstOfMonth(current)) <= i
            < StartPad(FirstOfMonth(current)) + DaysInMonth(current.year, current.month))
  {
    MonthCellsFrame(current);
  }

  // ---------------------------------------------------------------------
  // The constructor's two-digit years.

  /** As written, the grid for June of the year 50 is built with
      `new Date(50, 5, k)`, which the constructor reads as June 1950: the
      cells flagged as the current month show days of 1950. The grid with
      that reading left out flags only days of the year 50. */
  lemma MonthCellsTwoDigitYear()
    ensures var cells := MonthCells(Date(50, 6, 15), true);
      exists i :: 0 <= i < 42 && cells[i].isCurrentMonth && cells[i].date == Date(1950, 6, 1)
    ensures var cells := MonthDays(Date(50, 6, 15));
      forall i :: 0 <= i < 42 && cells[i].isCurrentMonth ==> cells[i].date.year == 50
  {
    var cells := MonthCells(Date(50, 6, 15), true);
    var firstDay := GridDate(true, 50, 5, 1);
    var lastDay := GridDate(true, 50, 6, 0);
    var pad := StartPad(firstDay);
    MonthCellAt(Date(50, 6, 15), true, pad);
    MakeDateExact(1950, 5, 1);
    assert firstDay == Date(1950, 6, 1);
    assert cells[pad] == GridCell(true, 50, 5, pad, lastDay.day, pad);
    assert cells[pad] == Cell(Date(1950, 6, 1), true);
  }

  /** Outside the years 0..99 the grid as written is the corrected grid. */
  lemma MonthCellsAsWritten(current: Date)
    requires Valid(current) && !(0 <= current.year <= 99)
    ensures MonthCells(current, true) == MonthDays(current)
  {
    assert CtorYear(true, current.year) == CtorYear(false, current.year);
  }

}
