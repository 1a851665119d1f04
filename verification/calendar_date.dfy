/** Proleptic Gregorian calendar arithmetic replacing JavaScript's `Date`.
    A date is a (year, month, day) triple with months numbered 1..12; a
    day number counts days from 1970-01-01 (day 0, a Thursday). */
module CalendarDate {

  datatype Date = Date(year: int, month: int, day: int)

  predicate IsLeapYear(y: int) {
    y % 4 == 0 && (y % 100 != 0 || y % 400 == 0)
  }

  function YearLength(y: int): int {
    if IsLeapYear(y) then 366 else 365
  }

  function DaysInMonth(y: int, m: int): int
    requires 1 <= m <= 12
  {
    if m == 2 then (if IsLeapYear(y) then 29 else 28)
    else if m == 4 || m == 6 || m == 9 || m == 11 then 30
    else 31
  }

  /** A triple that names a real calendar day. */
  predicate Valid(d: Date) {
    1 <= d.month <= 12 && 1 <= d.day <= DaysInMonth(d.year, d.month)
  }

  /** Days from 1970-01-01 to the 1st of January of year `y` (negative
      before 1970), counted one year at a time. */
  function DaysBeforeYear(y: int): int
    decreases if y >= 1970 then y - 1970 else 1970 - y
  {
    if y == 1970 then 0
    else if y > 1970 then DaysBeforeYear(y - 1) + YearLength(y - 1)
    else DaysBeforeYear(y + 1) - YearLength(y)
  }

  /** Days from 0001-01-01 to the 1st of January of year `y + 1`, in closed form. */
  function DaysThroughYear(y: int): int {
    365 * y + y / 4 - y / 100 + y / 400
  }

  /** Days of year `y` that precede the 1st of month `m`; `m == 13` gives the whole year. */
  function DaysBeforeMonth(y: int, m: int): int
    requires 1 <= m <= 13
  {
    var common := [0, 31, 59, 90, 120, 151, 181, 212, 243, 273, 304, 334, 365];
    common[m - 1] + (if IsLeapYear(y) && m > 2 then 1 else 0)
  }

  function DayNumber(d: Date): int
    requires 1 <= d.month <= 12
  {
    DaysBeforeYear(d.year) + DaysBeforeMonth(d.year, d.month) + d.day - 1
  }

  /** Weekday of day number `n`: day 0, 1970-01-01, was a Thursday (4),
      and each day's weekday follows the one before it. */
  function Weekday(n: int): (w: int)
    ensures 0 <= w < 7
    decreases if n < 0 then -n else n
  {
    if n == 0 then 4
    else if n > 0 then (Weekday(n - 1) + 1) % 7
    else (Weekday(n + 1) + 6) % 7
  }

  /** Adding `k` to a remainder modulo seven adds it to the number. */
  lemma ModSevenShift(a: int, k: int)
    ensures (a % 7 + k) % 7 == (a + k) % 7
  {
    var q := a / 7;
    assert a == 7 * q + a % 7;
    assert a + k == 7 * q + (a % 7 + k);
  }

  /** The weekday is the day number shifted by four, modulo seven. */
  lemma {:induction false} WeekdayMod(n: int)
    ensures Weekday(n) == (n + 4) % 7
    decreases if n < 0 then -n else n
  {
    if n > 0 {
      WeekdayMod(n - 1);
      ModSevenShift(n + 3, 1);
    } else if n < 0 {
      WeekdayMod(n + 1);
      ModSevenShift(n + 5, 6);
      assert (n + 11) % 7 == (n + 4) % 7;
    }
  }

  /** `getDay()`: 0 is Sunday, 1 is Monday, ..., 6 is Saturday. */
  function DayOfWeek(d: Date): (w: int)
    requires 1 <= d.month <= 12
    ensures 0 <= w < 7
  {
    Weekday(DayNumber(d))
  }

  // ---------------------------------------------------------------------
  // The year and month tables agree with the leap-year rule.

  lemma DaysBeforeYearStep(y: int)
    ensures DaysBeforeYear(y + 1) == DaysBeforeYear(y) + YearLength(y)
  {
  }

  /** The closed form counts a leap day every fourth year, except in
      century years not divisible by 400. */
  lemma DaysThroughYearStep(y: int)
    ensures DaysThroughYear(y) == DaysThroughYear(y - 1) + YearLength(y)
  {
    assert y / 4 - (y - 1) / 4 == (if y % 4 == 0 then 1 else 0);
    assert y / 100 - (y - 1) / 100 == (if y % 100 == 0 then 1 else 0);
    assert y / 400 - (y - 1) / 400 == (if y % 400 == 0 then 1 else 0);
  }

  /** Counting year by year agrees with the closed form. */
  lemma {:induction false} DaysBeforeYearClosedForm(y: int)
    ensures DaysBeforeYear(y) == DaysThroughYear(y - 1) - DaysThroughYear(1969)
    decreases if y >= 1970 then y - 1970 else 1970 - y
  {
    if y > 1970 {
      DaysBeforeYearClosedForm(y - 1);
      DaysThroughYearStep(y - 1);
    } else if y < 1970 {
      DaysBeforeYearClosedForm(y + 1);
      DaysThroughYearStep(y);
    }
  }

  lemma DaysBeforeMonthStep(y: int, m: int)
    requires 1 <= m <= 12
    ensures DaysBeforeMonth(y, m + 1) == DaysBeforeMonth(y, m) + DaysInMonth(y, m)
  {
  }

  lemma {:induction false} DaysBeforeYearMonotone(a: int, b: int)
    requires a <= b
    ensures DaysBeforeYear(a) + 365 * (b - a) <= DaysBeforeYear(b)
    decreases b - a
  {
    if a < b {
      DaysBeforeYearMonotone(a, b - 1);
      DaysBeforeYearStep(b - 1);
    }
  }

  // ---------------------------------------------------------------------
  // Normalising an overflowing day of the month.

  /** The 1st of the month after (y, m) lies `DaysInMonth(y, m)` days
      after the 1st of (y, m). */
  lemma FollowingMonth(y: int, m: int)
    requires 1 <= m <= 12
    ensures DayNumber(Date(if m == 12 then y + 1 else y, if m == 12 then 1 else m + 1, 1))
         == DayNumber(Date(y, m, 1)) + DaysInMonth(y, m)
  {
    if m == 12 {
      DaysBeforeYearStep(y);
    } else {
      DaysBeforeMonthStep(y, m);
    }
  }

  /** The day `day` of month (y, m), where `day` may lie outside the month:
      the surplus is carried one month at a time into the following months,
      a deficit is borrowed from the preceding ones. */
  function Normalize(y: int, m: int, day: int): (d: Date)
    requires 1 <= m <= 12
    ensures Valid(d)
    ensures DayNumber(d) == DayNumber(Date(y, m, 1)) + day - 1
    decreases if day < 1 then 1 else 0, if day < 1 then -day else day
  {
    if 1 <= day <= DaysInMonth(y, m) then
      Date(y, m, day)
    else
      var back := day < 1;
      var ny := if back then (if m == 1 then y - 1 else y) else (if m == 12 then y + 1 else y);
      var nm := if back then (if m == 1 then 12 else m - 1) else (if m == 12 then 1 else m + 1);
      var nd := if back then day + DaysInMonth(ny, nm) else day - DaysInMonth(y, m);
      FollowingMonth(ny, nm);
      FollowingMonth(y, m);
      Normalize(ny, nm, nd)
  }

  /** The calendar day with day number `n`. */
  function FromDayNumber(n: int): (d: Date)
    ensures Valid(d)
    ensures DayNumber(d) == n
  {
    Normalize(1970, 1, n + 1)
  }

  // ---------------------------------------------------------------------
  // Chronological order and the bijection.

  /** Triple order: year first, then month, then day. */
  predicate Before(a: Date, b: Date) {
    a.year < b.year
    || (a.year == b.year && a.month < b.month)
    || (a.year == b.year && a.month == b.month && a.day < b.day)
  }

  lemma DayNumberWithinYear(d: Date)
    requires Valid(d)
    ensures DaysBeforeYear(d.year) <= DayNumber(d) < DaysBeforeYear(d.year + 1)
  {
    DaysBeforeYearStep(d.year);
  }

  /** The day number grows with the triple order. */
  lemma DayNumberMonotone(a: Date, b: Date)
    requires Valid(a) && Valid(b)
    ensures Before(a, b) <==> DayNumber(a) < DayNumber(b)
  {
    DayNumberWithinYear(a);
    DayNumberWithinYear(b);
    if a.year < b.year {
      DaysBeforeYearMonotone(a.year + 1, b.year);
    } else if b.year < a.year {
      DaysBeforeYearMonotone(b.year + 1, a.year);
    }
  }

  lemma DayNumberInjective(a: Date, b: Date)
    requires Valid(a) && Valid(b)
    ensures DayNumber(a) == DayNumber(b) <==> a == b
  {
    DayNumberMonotone(a, b);
    DayNumberMonotone(b, a);
  }

  lemma FromDayNumberRoundTrip(d: Date)
    requires Valid(d)
    ensures FromDayNumber(DayNumber(d)) == d
  {
    DayNumberInjective(FromDayNumber(DayNumber(d)), d);
  }

  // ---------------------------------------------------------------------
  // JavaScript `Date` arithmetic.

  /** The day `k` days after `d` (before it, for negative `k`). */
  function AddDays(d: Date, k: int): (r: Date)
    requires 1 <= d.month <= 12
    ensures Valid(r)
    ensures DayNumber(r) == DayNumber(d) + k
  {
    Normalize(d.year, d.month, d.day + k)
  }

  /** `AddDays` lands on the one valid date `k` days after `d`. */
  lemma AddDaysUnique(d: Date, k: int, e: Date)
    requires 1 <= d.month <= 12 && Valid(e)
    requires DayNumber(e) == DayNumber(d) + k
    ensures AddDays(d, k) == e
  {
    DayNumberInjective(AddDays(d, k), e);
  }

  /** The year and 1-based month reached from `year` by a 0-based month
      index that may lie outside 0..11. */
  function CarryYear(year: int, monthIndex: int): int {
    year + monthIndex / 12
  }

  function CarryMonth(monthIndex: int): (m: int)
    ensures 1 <= m <= 12
  {
    monthIndex % 12 + 1
  }

  /** Where JavaScript's `Date` lands for (year, monthIndex, day), both
      fields allowed to overflow: the month index is carried into the year,
      then `day - 1` days are added to the 1st of that month. This is
      `setDate`, `setMonth`, and the three-argument constructor for years
      outside 0..99. */
  function MakeDate(year: int, monthIndex: int, day: int): (d: Date)
    ensures Valid(d)
    ensures DayNumber(d)
         == DayNumber(Date(CarryYear(year, monthIndex), CarryMonth(monthIndex), 1)) + day - 1
  {
    Normalize(CarryYear(year, monthIndex), CarryMonth(monthIndex), day)
  }

  /** `new Date(year, monthIndex, day)`: the constructor reads a year in
      0..99 as 1900 + year before normalising. */
  function NewDate(year: int, monthIndex: int, day: int): (d: Date)
    ensures Valid(d)
    ensures !(0 <= year <= 99) ==> d == MakeDate(year, monthIndex, day)
    ensures 0 <= year <= 99 ==> d == MakeDate(1900 + year, monthIndex, day)
  {
    MakeDate(if 0 <= year <= 99 then 1900 + year else year, monthIndex, day)
  }

  /** Fields already in range are kept as given. */
  lemma MakeDateExact(year: int, monthIndex: int, day: int)
    requires 0 <= monthIndex <= 11 && Valid(Date(year, monthIndex + 1, day))
    ensures MakeDate(year, monthIndex, day) == Date(year, monthIndex + 1, day)
  {
    assert CarryYear(year, monthIndex) == year && CarryMonth(monthIndex) == monthIndex + 1;
    DayNumberInjective(MakeDate(year, monthIndex, day), Date(year, monthIndex + 1, day));
  }

  /** `d.setDate(d.getDate() + k)` moves `d` by exactly `k` days. */
  lemma MakeDateShift(d: Date, k: int)
    requires Valid(d)
    ensures MakeDate(d.year, d.month - 1, d.day + k) == AddDays(d, k)
  {
    var first := Date(d.year, d.month, 1);
    assert CarryYear(d.year, d.month - 1) == d.year && CarryMonth(d.month - 1) == d.month;
    assert DayNumber(first) + (d.day + k - 1) == DayNumber(d) + k;
  }

  /** The 1st of the month after the one `monthIndex` names lies
      `DaysInMonth` days after the 1st of that month. */
  lemma NextMonthStart(year: int, monthIndex: int)
    ensures DayNumber(Date(CarryYear(year, monthIndex + 1), CarryMonth(monthIndex + 1), 1))
         == DayNumber(Date(CarryYear(year, monthIndex), CarryMonth(monthIndex), 1))
            + DaysInMonth(CarryYear(year, monthIndex), CarryMonth(monthIndex))
  {
    var y, m := CarryYear(year, monthIndex), CarryMonth(monthIndex);
    if m < 12 {
      assert CarryYear(year, monthIndex + 1) == y && CarryMonth(monthIndex + 1) == m + 1;
      DaysBeforeMonthStep(y, m);
    } else {
      assert CarryYear(year, monthIndex + 1) == y + 1 && CarryMonth(monthIndex + 1) == 1;
      DaysBeforeYearStep(y);
    }
  }

  /** Overflowing the day of one month is the same as counting into the
      next: `new Date(y, m, d)` equals `new Date(y, m + 1, d - daysIn(m))`. */
  lemma MakeDateCarry(year: int, monthIndex: int, day: int)
    ensures MakeDate(year, monthIndex, day)
         == MakeDate(year, monthIndex + 1,
                     day - DaysInMonth(CarryYear(year, monthIndex), CarryMonth(monthIndex)))
  {
    NextMonthStart(year, monthIndex);
    var dim := DaysInMonth(CarryYear(year, monthIndex), CarryMonth(monthIndex));
    DayNumberInjective(MakeDate(year, monthIndex, day), MakeDate(year, monthIndex + 1, day - dim));
  }

  /** A valid day lies in month (y, m) exactly when its day number falls in
      that month's span. */
  lemma InMonthSpan(d: Date, y: int, m: int)
    requires Valid(d) && 1 <= m <= 12
    ensures (d.year == y && d.month == m)
        <==> DayNumber(Date(y, m, 1)) <= DayNumber(d) < DayNumber(Date(y, m, 1)) + DaysInMonth(y, m)
  {
    var first := Date(y, m, 1);
    if DayNumber(first) <= DayNumber(d) < DayNumber(first) + DaysInMonth(y, m) {
      var e := Date(y, m, DayNumber(d) - DayNumber(first) + 1);
      DayNumberInjective(d, e);
    }
  }
}
