/** The dashboard's month calendar: the displayed month, month navigation,
    and the grid of leading blanks and day cells flagged "today" and
    "workout done" (src/components/WorkoutCalendar.tsx). The current date
    and "today" are parameters; the source reads both from `new Date()`. */
module WorkoutCalendar {
  import opened Gregorian

  /** The local year, month and day of a `Date`. */
  datatype CalDate = CalDate(year: int, month: MonthIndex, day: int)

  datatype Direction = Prev | Next

  function Offset(dir: Direction): int {
    if dir == Next then 1 else -1
  }

  /** The number of months from January of year 0 to the given month. */
  function MonthCount(year: int, month: MonthIndex): int {
    12 * year + month
  }

  /** `navigateMonth`: the first of the month before or after, rolling the
      year over between December and January. */
  function NavigateMonth(cur: CalDate, dir: Direction): (r: CalDate)
    ensures r.day == 1
    ensures MonthCount(r.year, r.month) == MonthCount(cur.year, cur.month) + Offset(dir)
  {
    var m := cur.month + Offset(dir);
    CalDate(cur.year + m / 12, m % 12, 1)
  }

  /** December steps to January of the next year and January back to
      December of the previous year. */
  lemma NavigateRollsOverYear(y: int, d: int)
    ensures NavigateMonth(CalDate(y, 11, d), Next) == CalDate(y + 1, 0, 1)
    ensures NavigateMonth(CalDate(y, 0, d), Prev) == CalDate(y - 1, 11, 1)
  {
  }

  /** Stepping forward and back (or back and forward) returns to the first of the month. */
  lemma NavigateRoundTrip(cur: CalDate)
    ensures NavigateMonth(NavigateMonth(cur, Next), Prev) == CalDate(cur.year, cur.month, 1)
    ensures NavigateMonth(NavigateMonth(cur, Prev), Next) == CalDate(cur.year, cur.month, 1)
  {
    var a := NavigateMonth(NavigateMonth(cur, Next), Prev);
    var b := NavigateMonth(NavigateMonth(cur, Prev), Next);
    assert MonthCount(a.year, a.month) == MonthCount(cur.year, cur.month);
    assert MonthCount(b.year, b.month) == MonthCount(cur.year, cur.month);
  }

  /** The year conversion of the `Date` constructor (MakeFullYear, ECMA-262
      section 21.4.2.1): a year argument from 0 to 99 means 1900 to 1999, so
      the result is never a two-digit year and is either `y` or `y + 1900`. */
  function MakeFullYear(y: int): (r: int)
    ensures !(0 <= r <= 99)
    ensures r == y || r == y + 1900
  {
    if 0 <= y <= 99 then 1900 + y else y
  }

  /** `navigateMonth` exactly as written: `new Date(year, month +- 1, 1)`
      passes the year through MakeFullYear before the month carries. */
  function NavigateAsWritten(cur: CalDate, dir: Direction): (r: CalDate)
    ensures cur.year < 0 || cur.year > 99 ==> r == NavigateMonth(cur, dir)
    ensures 0 <= cur.year <= 99 ==>
      MonthCount(r.year, r.month) == MonthCount(cur.year + 1900, cur.month) + Offset(dir)
  {
    var m := cur.month + Offset(dir);
    CalDate(MakeFullYear(cur.year) + m / 12, m % 12, 1)
  }

  /** Paging back from January of year 100 reaches December of year 99, from
      where either button jumps nineteen centuries, so forward-then-back no
      longer returns to the month it started from. */
  lemma NavigateAsWrittenSkipsCenturies()
    ensures NavigateAsWritten(CalDate(100, 0, 1), Prev) == CalDate(99, 11, 1)
    ensures NavigateAsWritten(CalDate(99, 11, 1), Next) == CalDate(2000, 0, 1)
    ensures NavigateAsWritten(CalDate(99, 11, 1), Prev) == CalDate(1999, 10, 1)
    ensures NavigateAsWritten(NavigateAsWritten(CalDate(99, 11, 1), Next), Prev) == CalDate(1999, 11, 1)
  {
  }

  /** `startingDayOfWeek`: `new Date(year, month, 1).getDay()`, 0 for Sunday. */
  function StartingDayOfWeek(year: int, month: MonthIndex): (w: int)
    ensures 0 <= w <= 6
  {
    WeekDay(MakeDay(year, month, 1))
  }

  /** `startingDayOfWeek` and `daysInMonth` exactly as written: both `Date`
      constructions pass the year through MakeFullYear. */
  function MonthShapeAsWritten(year: int, month: MonthIndex): (shape: (int, int))
    ensures year < 0 || year > 99 ==> shape == (StartingDayOfWeek(year, month), DaysInMonth(year, month))
  {
    var y := MakeFullYear(year);
    (WeekDay(MakeDay(y, month, 1)), DaysInMonth(y, month))
  }

  /** Year 0 is a leap year, but the as-written month shape gives February of
      year 0 the 28 days of February 1900. (The navigation buttons never
      display year 0; the reachable two-digit month is December 99.) */
  lemma MonthShapeAsWrittenLosesLeapDay()
    ensures MonthShapeAsWritten(0, 1).1 == 28
    ensures DaysInMonth(0, 1) == 29
  {
  }

  /** Paging back from January of year 100 displays December 99, whose grid
      as written starts under Wednesday, the weekday of 1 December 1999,
      although 1 December of year 99 was a Tuesday; the length of 31 days
      agrees. */
  lemma December99StartsLate()
    ensures NavigateAsWritten(CalDate(100, 0, 1), Prev) == CalDate(99, 11, 1)
    ensures StartingDayOfWeek(99, 11) == 2
    ensures MonthShapeAsWritten(99, 11) == (3, 31)
    ensures DaysInMonth(99, 11) == 31
  {
    assert DayFromYear(99) == -683368;
    assert MakeDay(99, 11, 1) == -683034;
    assert DayFromYear(1999) == 10592;
    assert MakeDay(1999, 11, 1) == 10926;
  }

  datatype Cell = Blank | DayCell(day: int, isToday: bool, hasWorkout: bool)

  /** `isToday(day)`: the cell's date is today's date. */
  predicate IsToday(day: int, year: int, month: MonthIndex, today: CalDate)
    ensures IsToday(day, year, month, today) <==> today == CalDate(year, month, day)
  {
    today.day == day && today.month == month && today.year == year
  }

  /** `hasWorkout(day)`: the bare day number is at some position of the
      list, whatever the month. */
  predicate HasWorkout(day: int, workoutDays: seq<int>)
    ensures HasWorkout(day, workoutDays) <==> exists k :: 0 <= k < |workoutDays| && workoutDays[k] == day
  {
    day in workoutDays
  }

  /** The day numbers the calendar marks as done. */
  const WorkoutDays: seq<int> := [1, 3, 5, 8, 10, 12, 15, 17, 20, 22, 24, 26]

  /** Every marked day exists in every month (the last is the 26th), so every
      displayed month shows all twelve marks; unlisted days such as the 2nd
      are never marked. */
  lemma MarkedDaysFitEveryMonth(year: int, month: MonthIndex)
    ensures forall d :: HasWorkout(d, WorkoutDays) ==> 1 <= d <= DaysInMonth(year, month)
    ensures |WorkoutDays| == 12 && forall j, k :: 0 <= j < k < |WorkoutDays| ==> WorkoutDays[j] < WorkoutDays[k]
    ensures !HasWorkout(2, WorkoutDays)
  {
  }

  function CellFor(day: int, year: int, month: MonthIndex, today: CalDate, workoutDays: seq<int>): Cell {
    DayCell(day, IsToday(day, year, month, today), HasWorkout(day, workoutDays))
  }

  /** The grid of a month whose first day falls on weekday `start` and that
      has `dim` days: `start` blanks, then one cell per day, in order, each
      flagged as today exactly on today's date and as a workout day exactly
      when its number is listed. */
  function Grid(start: nat, dim: nat, year: int, month: MonthIndex, today: CalDate, workoutDays: seq<int>): (r: seq<Cell>)
    ensures |r| == start + dim
    ensures forall k :: 0 <= k < start ==> r[k] == Blank
    ensures forall k :: start <= k < |r| ==>
      && r[k].DayCell? && r[k].day == k - start + 1
      && (r[k].isToday <==> today == CalDate(year, month, k - start + 1))
      && (r[k].hasWorkout <==> k - start + 1 in workoutDays)
  {
    seq(start, _ => Blank) + seq(dim, k => CellFor(k + 1, year, month, today, workoutDays))
  }

  /** The grid of the displayed month: every date of the month appears once,
      in the column (counting from Sunday) of its own weekday. */
  function Layout(year: int, month: MonthIndex, today: CalDate, workoutDays: seq<int>): (r: seq<Cell>)
    ensures |r| == StartingDayOfWeek(year, month) + DaysInMonth(year, month)
    ensures forall d :: 1 <= d <= DaysInMonth(year, month) ==>
      var k := StartingDayOfWeek(year, month) + d - 1;
      && r[k].DayCell? && r[k].day == d
      && k % 7 == WeekDay(MakeDay(year, month, d))
  {
    var first := MakeDay(year, month, 1);
    assert forall d :: 1 <= d <= DaysInMonth(year, month) ==>
      (StartingDayOfWeek(year, month) + d - 1) % 7 == WeekDay(MakeDay(year, month, d)) by {
      forall d | 1 <= d <= DaysInMonth(year, month)
        ensures (StartingDayOfWeek(year, month) + d - 1) % 7 == WeekDay(MakeDay(year, month, d))
      {
        DateOffset(year, month, d);
        ModAddSeven(first + 4, d - 1);
      }
    }
    Grid(StartingDayOfWeek(year, month), DaysInMonth(year, month), year, month, today, workoutDays)
  }

  /** `renderCalendarDays`: the two loops of the source, pushing
      `startingDayOfWeek` blanks and then the days 1 to `daysInMonth`, the two
      values the component derives from the displayed month. */
  method RenderCalendarDays(startingDayOfWeek: nat, daysInMonth: nat, year: int, month: MonthIndex,
                            today: CalDate, workoutDays: seq<int>) returns (cells: seq<Cell>)
    ensures cells == Grid(startingDayOfWeek, daysInMonth, year, month, today, workoutDays)
  {
    cells := [];
    var i := 0;
    while i < startingDayOfWeek
      invariant 0 <= i <= startingDayOfWeek
      invariant |cells| == i
      invariant forall k :: 0 <= k < i ==> cells[k] == Blank
    {
      cells := cells + [Blank];
      i := i + 1;
    }
    var day := 1;
    while day <= daysInMonth
      invariant 1 <= day <= daysInMonth + 1
      invariant |cells| == startingDayOfWeek + day - 1
      invariant forall k :: 0 <= k < startingDayOfWeek ==> cells[k] == Blank
      invariant forall k :: startingDayOfWeek <= k < |cells| ==>
        cells[k] == CellFor(k - startingDayOfWeek + 1, year, month, today, workoutDays)
    {
      cells := cells + [CellFor(day, year, month, today, workoutDays)];
      day := day + 1;
    }
  }

  /** The grid is the blanks followed by the days 1 to `DaysInMonth` in
      increasing order, and fits six rows of seven. */
  lemma LayoutShape(year: int, month: MonthIndex, today: CalDate, workoutDays: seq<int>)
    ensures var cells := Layout(year, month, today, workoutDays);
      var start := StartingDayOfWeek(year, month);
      && |cells| == start + DaysInMonth(year, month) <= 42
      && (forall k :: 0 <= k < start ==> cells[k] == Blank)
      && (forall k :: start <= k < |cells| ==> cells[k].DayCell? && cells[k].day == k - start + 1)
      && (forall j, k :: start <= j < k < |cells| ==> cells[j].day < cells[k].day)
  {
  }

  /** At most one cell is today's, and one is only when the displayed month
      and year are today's; then it is the cell of today's day number. */
  lemma AtMostOneToday(year: int, month: MonthIndex, today: CalDate, workoutDays: seq<int>)
    ensures var cells := Layout(year, month, today, workoutDays);
      && (forall j, k ::
            (0 <= j < |cells| && 0 <= k < |cells| && cells[j].DayCell? && cells[j].isToday
             && cells[k].DayCell? && cells[k].isToday) ==> j == k)
      && (forall k :: 0 <= k < |cells| && cells[k].DayCell? && cells[k].isToday ==>
            year == today.year && month == today.month && cells[k].day == today.day)
      && (year == today.year && month == today.month && 1 <= today.day <= DaysInMonth(year, month) ==>
            exists k :: 0 <= k < |cells| && cells[k].DayCell? && cells[k].isToday)
  {
    var cells := Layout(year, month, today, workoutDays);
    var start := StartingDayOfWeek(year, month);
    if year == today.year && month == today.month && 1 <= today.day <= DaysInMonth(year, month) {
      var k := start + today.day - 1;
      assert cells[k] == CellFor(today.day, year, month, today, workoutDays);
    }
  }

  /** The workout flag of a day depends on its day number only: every
      displayed month flags day `d` alike. */
  lemma WorkoutFlagIgnoresMonth(y1: int, m1: MonthIndex, y2: int, m2: MonthIndex,
                                today: CalDate, workoutDays: seq<int>, d: int)
    requires 1 <= d <= DaysInMonth(y1, m1) && 1 <= d <= DaysInMonth(y2, m2)
    ensures var c1 := Layout(y1, m1, today, workoutDays)[StartingDayOfWeek(y1, m1) + d - 1];
      var c2 := Layout(y2, m2, today, workoutDays)[StartingDayOfWeek(y2, m2) + d - 1];
      c1.DayCell? && c2.DayCell? && c1.day == c2.day == d
      && c1.hasWorkout == c2.hasWorkout == (d in workoutDays)
  {
  }

  /** The three looks of a day cell. */
  datatype Style = TodayStyle | WorkoutStyle | PlainStyle

  /** Today's highlight takes priority over the workout highlight. */
  function CellStyle(c: Cell): (st: Style)
    requires c.DayCell?
    ensures st == TodayStyle <==> c.isToday
    ensures st == WorkoutStyle <==> c.hasWorkout && !c.isToday
  {
    if c.isToday then TodayStyle else if c.hasWorkout then WorkoutStyle else PlainStyle
  }

  /** The small dot under a day: a workout day that is not today; it marks
      exactly the cells drawn in the workout style. */
  predicate ShowsDot(c: Cell)
    requires c.DayCell?
    ensures ShowsDot(c) <==> CellStyle(c) == WorkoutStyle
  {
    c.hasWorkout && !c.isToday
  }

  /** Across a displayed month, the dotted cells are exactly the listed day
      numbers other than today's date, and every dotted cell is drawn in the
      workout style. */
  lemma DottedDaysAreListedDays(year: int, month: MonthIndex, today: CalDate, workoutDays: seq<int>)
    ensures var cells := Layout(year, month, today, workoutDays);
      forall k :: 0 <= k < |cells| && cells[k].DayCell? ==>
        && (ShowsDot(cells[k]) <==> cells[k].day in workoutDays && today != CalDate(year, month, cells[k].day))
        && (ShowsDot(cells[k]) ==> CellStyle(cells[k]) == WorkoutStyle)
  {
    var cells := Layout(year, month, today, workoutDays);
    var start := StartingDayOfWeek(year, month);
    forall k | 0 <= k < |cells| && cells[k].DayCell?
      ensures ShowsDot(cells[k]) <==> cells[k].day in workoutDays && today != CalDate(year, month, cells[k].day)
    {
      assert cells[k] == CellFor(k - start + 1, year, month, today, workoutDays);
    }
  }
}
