/**
 * The calendar page's `Calendar` object.  `currentDate` and `selectedDate`
 * are references to mutable date objects: the constructor makes them the
 * same object, so the month buttons, which change `currentDate` in place,
 * move the selection too until a click on a day selects a new date object.
 */
module CalendarPage {
  import opened Util
  import opened Dates
  import opened Tasks
  import opened Views
  import opened Grid

  /** A JavaScript `Date` object, reduced to the calendar day it holds. */
  class JsDate {
    var value: Date

    constructor (d: Date)
      ensures value == d
    {
      value := d;
    }

    /** `setMonth(m)`, with the carry and roll-over of `Dates.SetMonth`. */
    method SetMonth(m: int)
      requires IsValid(value)
      modifies this
      ensures value == Dates.SetMonth(old(value), m)
    {
      value := Dates.SetMonth(value, m);
    }
  }

  class Calendar {
    var currentDate: JsDate
    var selectedDate: JsDate
    var tasks: seq<Task>
    /** The lists written to the `tasks` storage key, oldest first. */
    var saved: seq<seq<Task>>
    /** The grid last rendered. */
    var grid: seq<Cell>
    /** The task list last shown for the selected date. */
    var shown: seq<Task>

    /** Both date objects hold real calendar days. */
    ghost predicate Valid()
      reads this, currentDate, selectedDate
    {
      IsValid(currentDate.value) && IsValid(selectedDate.value)
    }

    /**
     * The constructor: `start` is the day of the `date` URL parameter, or
     * today when there is none; `stored` is the parsed storage key, `None`
     * when the key is absent.  The selection is the current date object
     * itself.  The grid is rendered, and a date given in the URL is selected.
     */
    constructor (start: Date, fromUrl: bool, stored: Option<seq<Task>>)
      requires IsValid(start)
      ensures Valid() && fresh(currentDate)
      ensures currentDate.value == start && selectedDate == currentDate
      ensures tasks == (if stored.Some? then stored.value else [])
      ensures saved == []
      ensures grid == MonthCells(tasks, start.year, start.month)
      ensures shown == (if fromUrl then TasksOnDay(tasks, start) else [])
    {
      var date := new JsDate(start);
      currentDate := date;
      selectedDate := date;
      tasks := if stored.Some? then stored.value else [];
      saved := [];
      grid := [];
      shown := [];
      new;
      RenderCalendar();
      if fromUrl {
        SelectDate(currentDate);
      }
    }

    /** `renderCalendar`: the grid of the current date's month. */
    method RenderCalendar()
      requires Valid()
      modifies this
      ensures unchanged(this`currentDate, this`selectedDate, this`tasks, this`saved, this`shown)
      ensures Valid() && grid == MonthCells(tasks, currentDate.value.year, currentDate.value.month)
    {
      grid := RenderMonth(tasks, currentDate.value.year, currentDate.value.month);
    }

    /**
     * `getTasksForDate`: the day list of the store, so it keeps store order
     * and multiplicity (`Views.TasksOnDayKeepsStoreOrder`).
     */
    function TasksForDate(date: JsDate): (r: seq<Task>)
      reads this, date
      ensures forall t :: t in r <==> t in tasks && t.dueDate == Some(date.value)
      ensures r == TasksOnDay(tasks, date.value)
    {
      TasksOnDay(tasks, date.value)
    }

    /** `selectDate`: `date` becomes the selection and its tasks are listed. */
    method SelectDate(date: JsDate)
      requires IsValid(currentDate.value) && IsValid(date.value)
      modifies this
      ensures selectedDate == date && Valid()
      ensures shown == TasksOnDay(tasks, date.value)
      ensures unchanged(this`currentDate, this`tasks, this`saved, this`grid)
    {
      selectedDate := date;
      shown := TasksForDate(date);
    }

    /** A click on day `day` of the grid selects a new date object for that day. */
    method ClickDay(day: int)
      requires Valid() && 1 <= day <= DaysInMonth(currentDate.value.year, currentDate.value.month)
      modifies this
      ensures Valid() && fresh(selectedDate)
      ensures selectedDate.value == Date(currentDate.value.year, currentDate.value.month, day)
      ensures shown == TasksOnDay(tasks, selectedDate.value)
      ensures unchanged(this`currentDate, this`tasks, this`saved, this`grid)
    {
      var date := new JsDate(Date(currentDate.value.year, currentDate.value.month, day));
      SelectDate(date);
    }

    /** `previousMonth`: `setMonth(getMonth() - 1)` on the current date object, then a new grid. */
    method PreviousMonth()
      requires Valid()
      modifies this, currentDate
      ensures Valid()
      ensures currentDate == old(currentDate) && currentDate.value == Dates.PreviousMonth(old(currentDate.value))
      ensures selectedDate == old(selectedDate)
      ensures selectedDate != currentDate ==> selectedDate.value == old(selectedDate.value)
      ensures grid == MonthCells(tasks, currentDate.value.year, currentDate.value.month)
      ensures unchanged(this`tasks, this`saved, this`shown)
    {
      currentDate.SetMonth(currentDate.value.month - 1);
      RenderCalendar();
    }

    /** `nextMonth`: `setMonth(getMonth() + 1)` on the current date object, then a new grid. */
    method NextMonth()
      requires Valid()
      modifies this, currentDate
      ensures Valid()
      ensures currentDate == old(currentDate) && currentDate.value == Dates.NextMonth(old(currentDate.value))
      ensures selectedDate == old(selectedDate)
      ensures selectedDate != currentDate ==> selectedDate.value == old(selectedDate.value)
      ensures grid == MonthCells(tasks, currentDate.value.year, currentDate.value.month)
      ensures unchanged(this`tasks, this`saved, this`shown)
    {
      currentDate.SetMonth(currentDate.value.month + 1);
      RenderCalendar();
    }

    /**
     * The delete button of the selected date's list: once confirmed, every
     * task with the id is filtered out, the list is saved, the grid redrawn
     * and the selected date's list shown again.  Without confirmation
     * nothing changes.
     */
    method DeleteTask(id: int, confirmed: bool)
      requires Valid()
      modifies this
      ensures Valid()
      ensures confirmed ==> tasks == Deleted(old(tasks), id) && saved == old(saved) + [tasks]
      ensures confirmed ==> grid == MonthCells(tasks, currentDate.value.year, currentDate.value.month)
      ensures confirmed ==> shown == TasksOnDay(tasks, selectedDate.value)
      ensures !confirmed ==> tasks == old(tasks) && saved == old(saved) && grid == old(grid) && shown == old(shown)
      ensures currentDate == old(currentDate) && selectedDate == old(selectedDate)
    {
      if confirmed {
        tasks := Deleted(tasks, id);
        saved := saved + [tasks];
        RenderCalendar();
        SelectDate(selectedDate);
      }
    }
  }

  /**
   * Right after the page opens, "next month" also moves the selected date,
   * since both fields hold the same object.
   */
  method NavigationMovesSelection(start: Date) returns (selected: Date)
    requires IsValid(start)
    ensures selected == NextMonth(start)
  {
    var c := new Calendar(start, false, None);
    c.NextMonth();
    selected := c.selectedDate.value;
  }

  /** After a click on a day, the month buttons leave the selection where it is. */
  method ClickedSelectionStays(start: Date, day: int) returns (selected: Date)
    requires IsValid(start) && 1 <= day <= DaysInMonth(start.year, start.month)
    ensures selected == Date(start.year, start.month, day)
  {
    var c := new Calendar(start, false, None);
    c.ClickDay(day);
    c.NextMonth();
    c.PreviousMonth();
    selected := c.selectedDate.value;
  }

  /** A deleted task no longer appears in the selected date's list. */
  method DeleteHidesTask(c: Calendar, id: int)
    requires c.Valid()
    modifies c
    ensures forall t :: t in c.shown ==> t.id != id
  {
    c.DeleteTask(id, true);
  }
}
