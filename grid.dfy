/**
 * The month grid that both calendars draw: blank cells up to the weekday of
 * the 1st, then one cell per day of the month, each showing at most three
 * of the day's tasks and a count of the others.
 */
module Grid {
  import opened Util
  import opened Dates
  import opened Tasks
  import opened Views

  /** An empty leading cell, or a numbered day with its task previews and "+n more" count. */
  datatype Cell = Blank | Day(day: int, previews: seq<Task>, more: Option<nat>)

  /**
   * `createDayElement` for a day: the first three tasks due that day in
   * store order (all of them when there are fewer), and a "+n more" count
   * exactly when more than three are due.  Shown and counted tasks together
   * account for every task of the day.
   */
  function DayCell(ts: seq<Task>, d: Date): (c: Cell)
    ensures c.Day? && c.day == d.day
    ensures c.previews <= TasksOnDay(ts, d)
    ensures |c.previews| == if |TasksOnDay(ts, d)| < 3 then |TasksOnDay(ts, d)| else 3
    ensures c.more.Some? <==> |TasksOnDay(ts, d)| > 3
    ensures |c.previews| + (if c.more.Some? then c.more.value else 0) == |TasksOnDay(ts, d)|
  {
    var due := TasksOnDay(ts, d);
    if |due| <= 3 then Day(d.day, due, None)
    else Day(d.day, due[..3], Some(|due| - 3))
  }

  /** The number of blank cells before the 1st: its weekday, Sunday first. */
  function Lead(year: int, month: int): (n: nat)
    ensures n < 7
  {
    Weekday(Date(year, month, 1))
  }

  /**
   * The whole grid of a month, as a sequence of cells read row by row, seven
   * to a row: the blanks before the 1st and one cell per day, which fits in
   * six rows.
   */
  function MonthCells(ts: seq<Task>, year: int, month: int): (cells: seq<Cell>)
    requires 0 <= month < 12
    ensures |cells| == Lead(year, month) + DaysInMonth(year, month) <= 42
  {
    seq(Lead(year, month), _ => Blank)
      + seq(DaysInMonth(year, month), k requires 0 <= k < DaysInMonth(year, month) => DayCell(ts, Date(year, month, k + 1)))
  }

  /**
   * The grid's shape: `Lead` blanks, then the days 1 .. last in ascending
   * order, at most six rows of seven.
   */
  lemma GridShape(ts: seq<Task>, year: int, month: int)
    requires 0 <= month < 12
    ensures var cells := MonthCells(ts, year, month);
            && |cells| == Lead(year, month) + DaysInMonth(year, month) <= 42
            && (forall i :: 0 <= i < Lead(year, month) ==> cells[i] == Blank)
            && (forall k :: 1 <= k <= DaysInMonth(year, month) ==>
                  cells[Lead(year, month) + k - 1] == DayCell(ts, Date(year, month, k)))
  {
  }

  /** Consecutive days of a month have consecutive day counts. */
  lemma OrdinalInMonth(year: int, month: int, k: int)
    requires 0 <= month < 12
    ensures Ordinal(Date(year, month, k)) == Ordinal(Date(year, month, 1)) + k - 1
  {
    assert month / 12 == 0 && month % 12 == month;
  }

  /**
   * Every day sits in the column of its own weekday: cell `i` is in column
   * `i % 7`, Sunday first.
   */
  lemma DayInItsWeekdayColumn(year: int, month: int, k: int)
    requires 0 <= month < 12 && 1 <= k <= DaysInMonth(year, month)
    ensures (Lead(year, month) + k - 1) % 7 == Weekday(Date(year, month, k))
  {
    OrdinalInMonth(year, month, k);
    WeekdayShift(Date(year, month, 1), Date(year, month, k), k - 1);
  }

  /** The cell at position `j` of the month's grid. */
  lemma CellAt(ts: seq<Task>, year: int, month: int, j: int)
    requires 0 <= month < 12 && 0 <= j < Lead(year, month) + DaysInMonth(year, month)
    ensures MonthCells(ts, year, month)[j]
            == if j < Lead(year, month) then Blank else DayCell(ts, Date(year, month, j - Lead(year, month) + 1))
  {
  }

  /**
   * `renderCalendar`: one loop appends the leading blanks, a second one the
   * day cells 1 .. last, where the last day is the day before the 1st of the
   * next month.
   */
  method RenderMonth(ts: seq<Task>, year: int, month: int) returns (cells: seq<Cell>)
    requires 0 <= month < 12
    ensures cells == MonthCells(ts, year, month)
  {
    ghost var grid := MonthCells(ts, year, month);
    var firstDay := Lead(year, month);
    var totalDays := DaysInMonth(year, month);
    cells := [];
    var i := 0;
    while i < firstDay
      invariant 0 <= i <= firstDay
      invariant cells == grid[..i]
    {
      CellAt(ts, year, month, i);
      assert grid[..i + 1] == grid[..i] + [Blank];
      cells := cells + [Blank];
      i := i + 1;
    }
    var day := 1;
    while day <= totalDays
      invariant 1 <= day <= totalDays + 1
      invariant cells == grid[..firstDay + day - 1]
    {
      CellAt(ts, year, month, firstDay + day - 1);
      assert grid[..firstDay + day] == grid[..firstDay + day - 1] + [DayCell(ts, Date(year, month, day))];
      cells := cells + [DayCell(ts, Date(year, month, day))];
      day := day + 1;
    }
    assert grid[..|grid|] == grid;
  }
}
