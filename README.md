# Task manager: store, views and calendar in Dafny

This project models the logic of a small browser task manager. The model covers two parts.

The first part is the `TaskManager` of the task pages (`script.js`). It holds an ordered list of task records, each with:
- `id`, `title`, `description` and `tags`;
- an optional `dueDate`;
- `completed`, and `completedAt`, which is present while the task is completed.

The form, delete, checkbox and drop handlers change that list in place and write it back to storage. The pages show views of it:
- the open tasks;
- the completed tasks;
- the open tasks carrying a selected tag;
- the open tasks due after today, grouped by day in ascending day order;
- the sidebar counters and progress value;
- the tasks due on one calendar day.

The second part is the calendar page's `Calendar` object (`calendar.js`). It draws a month as a grid: leading blank cells up to the weekday of the 1st, then one cell per day. Each day cell shows up to three of that day's tasks and a "+n more" count. The month buttons move `currentDate` with `Date.setMonth` semantics: the year carries, and a day that does not exist in the target month rolls over into the next month. The constructor makes `selectedDate` the same object as `currentDate`, so the buttons also move the selection until a day is clicked. The task page's own calendar (`script.js:781-849`) draws the same grid and is modelled by the same `Grid` functions.

Layout:
- `util.dfy` (`Util`): `Option` and the order-keeping `Filter`.
- `dates.dfy` (`Dates`): calendar-day arithmetic.
  - A day is `Date(year, month 0..11, day)`.
  - `Ordinal` counts days since year 0 of the proleptic Gregorian calendar.
- `tags.dfy` (`Tags`): the tag field's `split(',')`/`trim()` parser and the `", "` join that the edit form shows.
- `tasks.dfy` (`Tasks`): the task record. Each of the five list changes is a function from the old list to the new one, with the invariants it keeps.
- `views.dfy` (`Views`) and `upcoming.dfy` (`Upcoming`): the read-only views, and the day grouping loop with its sort.
- `store.dfy` (`Store`): the `TaskManager` class.
  - Field `tasks`, plus `saved`, the log of lists written to storage.
  - One method per handler, each proved to produce the `Tasks` function of the old list.
- `grid.dfy` (`Grid`): the month grid as a specification function, and the two-loop rendering method proved equal to it.
- `calendar.dfy` (`CalendarPage`): the `Calendar` class over mutable `JsDate` objects, with client methods that show the aliasing.

Where the code and its documented behaviour differ, the model follows the code:
- The upcoming filter keeps tasks whose day is at least tomorrow (`taskDate >= tomorrow`, `script.js:365`). Tomorrow is included; only today and earlier days are excluded. This holds where local time is UTC or east of it; west of UTC the page excludes tasks due tomorrow too (see the time-zone line under "## Left out").
- The checkbox handler has no "value unchanged" test. Checking an already completed task records a new `completedAt` (`Tasks.Toggled`).
- The grid ends with the last day of the month. No trailing blank cells fill the last row.

## Model

| member | source | states |
|---|---|---|
| Dates.DaysInMonth | calendar.js:40-41 | a month has 28 to 31 days, and February has 29 exactly in leap years |
| Dates.LastDayOfMonth | calendar.js:40-41 | for years outside 0..99, `new Date(y, m + 1, 0)` is day `DaysInMonth(y, m)` of month `m`; that day exists and the day after it does not |
| Dates.Weekday | calendar.js:39-47 | `getDay()` of a day is a column 0..6; `WeekdayAnchor` and `WeekdayNextDay` tie it to the real week |
| Dates.DayNumberRollOver | calendar.js:40-41 | for years outside 0..99, `new Date(y, m, d)` rolls over: month `m + 12` of year `y` is month `m` of year `y + 1`, each day more is one day count more (day 0 is the day before the 1st), and months 0..11 need no carry |
| Dates.DaysBeforeYearClosedForm | calendar.js:39-41 | the days before year `y >= 0` are `365y` plus the Gregorian leap days: every fourth year, except centuries not divisible by 400 |
| Dates.NewYearOrdinal | calendar.js:39-41 | New Year's Day of year `y >= 0` has the closed-form day count |
| Dates.WeekdayAnchor | calendar.js:47 | `getDay()` gives Thursday (4) for 1 January 1970 and Saturday (6) for 1 January 2000 |
| Dates.WeekdayShift | calendar.js:47 | a day `k` days after another is `k` places later in the week, modulo 7 |
| Dates.WeekdayNextDay | calendar.js:47 | each day's weekday is one more than the day before's, Saturday followed by Sunday |
| Dates.NextMonthWeekday | calendar.js:39-41 | the 1st of the next month falls `DaysInMonth` days later in the week than the 1st of this month |
| Dates.NextDay | script.js:355-356 | `setDate(getDate() + 1)` gives a valid day whose day count is one more than today's; `Views.FutureBoundary` shows that the future filter's cut-off is this day |
| Dates.SetMonth | calendar.js:191-199 | `setMonth(m)` gives a valid day whose day count is that of day `d` of month `m` (months outside 0..11 carry into the year); the same day when it fits the target month, otherwise the overflow day of the following month |
| Dates.NextMonth | calendar.js:196-199 | "next month" is a valid day whose day count is that of `new Date(y, m + 1, d)`, with a day no later in its month than the start day |
| Dates.PreviousMonth | calendar.js:191-194 | "previous month" is a valid day whose day count is that of `new Date(y, m - 1, d)`, with a day no later in its month than the start day |
| Dates.NextMonthCarry | calendar.js:196-199 | for days 1..28, "next" moves one month forward, and December goes to January of the next year |
| Dates.PreviousMonthCarry | calendar.js:191-194 | for days 1..28, "previous" moves one month back, and January goes to December of the year before |
| Dates.NavigationRoundTrip | calendar.js:191-199 | for days 1..28, "previous" after "next" and "next" after "previous" both restore the day |
| Dates.NavigationSkipsShortMonth | calendar.js:196-199 | from 31 January, "next" gives 3 March (2 March in leap years), and "previous" then gives a day in February, not 31 January |
| Dates.DayBeforeIsChronological | script.js:292 | for valid days, the ISO string order of their keys holds exactly when the first day comes earlier in time |
| Tags.Trim | script.js:430 | a trimmed piece has white space at neither end and is no longer than the input |
| Tags.TrimRemovesOnlySpace | script.js:430 | trimming removes white space at the two ends and nothing else: the result is a slice whose outside is all white space |
| Tags.Split | script.js:430 | `split(',')` gives at least one piece and no piece contains a comma |
| Tags.SplitJoin | script.js:430 | splitting gives one piece more than there are commas, and joining the pieces with the comma gives the text back |
| Tags.ParseTags | script.js:430 | empty text gives no tags; other text gives one comma-free, trimmed tag per comma-separated piece |
| Tags.JoinTags | script.js:622 | `tags.join(', ')` is empty exactly for no tags and for the single empty tag, and a single tag is shown as itself |
| Tags.ParseJoinRoundTrip | script.js:622 | parsing the `", "`-join of comma-free, trimmed tags gives the same tags back, unless the list is the single empty tag |
| Tags.EmptyTagIsLost | script.js:622 | the single empty tag is shown as empty text and read back as no tags |
| Tasks.IndexOf | script.js:434 | `findIndex` returns -1 exactly when no task has the id; otherwise the first position holding it |
| Tasks.Lookup | script.js:510 | `find` returns nothing exactly when no task has the id; otherwise the task at `IndexOf`, the first position holding the id |
| Tasks.LookupUnique | script.js:674 | with one task per id, `find` returns the task that holds the id |
| Tasks.NewTask | script.js:446-453 | a created task has the given id and the form's four fields, and is open with no completion time |
| Tasks.CreatePreservesInvariants | script.js:446-455 | appending a task whose id is new keeps one task per id, and keeps `completedAt` present exactly on completed tasks |
| Tasks.Updated | script.js:432-443 | an update keeps ids and length; the first task with the id gets the four form fields and keeps id, completion state and position; every other task is unchanged; an unknown id changes nothing |
| Tasks.UpdatePreservesInvariants | script.js:434-443 | an update keeps one task per id and keeps completion times consistent |
| Tasks.Deleted | script.js:487 | after delete, a task remains exactly when it was in the list and has another id; no task has the id |
| Tasks.DeleteKeepsOrder | script.js:487 | delete works task by task: the result for a concatenation is the concatenation of the results, and a single task stays exactly when its id differs; so the remaining tasks keep their order and multiplicity |
| Tasks.DeleteAbsent | script.js:487 | deleting an id no task holds leaves the list exactly as it was |
| Tasks.DeleteIdempotent | script.js:487 | deleting twice is the same as deleting once |
| Tasks.DeletePreservesInvariants | script.js:487 | deleting keeps one task per id and keeps completion times consistent |
| Tasks.Toggled | script.js:510-542 | the first task with the id becomes completed at `now` (checked) or open with no completion time (unchecked), and nothing else of it changes; other tasks and unknown ids are untouched |
| Tasks.TogglePreservesInvariants | script.js:515-542 | toggling keeps one task per id, and keeps `completedAt` present exactly on completed tasks |
| Tasks.CheckThenUncheck | script.js:515-542 | checking an open task and unchecking it again restores the list exactly |
| Tasks.Reordered | script.js:673-677 | the dropped order holds at most one task per dropped id; each is a store task whose id was dropped |
| Tasks.ReorderedIds | script.js:673-677 | an id is in the new list exactly when it was dropped and the store holds it; other tasks are gone |
| Tasks.ReorderOfShownTasks | script.js:673-677 | with one task per id, dropping the ids of a list of store tasks makes the store exactly that list, in that order |
| Tasks.ReorderIdentity | script.js:673-677 | dropping the store's own order leaves the store unchanged |
| Tasks.ReorderPreservesInvariants | script.js:673-677 | dropping distinct ids keeps one task per id and keeps completion times consistent |
| Views.Active | script.js:56 | the main list holds exactly the open tasks |
| Views.Completed | script.js:127 | the completed page holds exactly the completed tasks |
| Views.ActiveCompletedPartition | script.js:377-378 | the two lists together hold every task exactly as often as the store, and their lengths add up to the store's |
| Views.ViewsKeepStoreOrder | script.js:56 | both lists keep store order: the list of a concatenation is the concatenation of the lists |
| Views.TagView | script.js:194-208 | a missing or empty selected tag shows "no tag selected"; otherwise the list holds exactly the open tasks whose tags contain the tag |
| Views.TagViewWithinActive | script.js:206-208 | the tag page lists the main list's tasks that carry the tag, in the same order |
| Views.TasksOnDay | calendar.js:105-110 | the day list holds exactly the tasks due on that day, completed ones included; tasks without a due date never match |
| Views.TasksOnDayKeepsStoreOrder | calendar.js:105-110 | the day list works task by task: the list of a concatenation is the concatenation of the lists, and a single task is kept exactly when it is due that day; so it keeps store order and multiplicity |
| Views.DueFromTomorrow | script.js:358-366 | the future test holds exactly for an open task with a due date whose day count is greater than today's |
| Views.Future | script.js:352-367 | the future list holds exactly the open tasks whose due day is tomorrow or later |
| Views.FutureIsAfterToday | script.js:358-365 | a task with a valid due day is a future task exactly when it is open and its day comes after today |
| Views.FutureBoundary | script.js:358-365 | an open task due today is not a future task; one due tomorrow is |
| Views.Counts | script.js:377-382 | completed and remaining counts add up to the total; each is zero exactly when no task is in that state |
| Views.Progress | script.js:383-386 | progress is 0 for an empty store, otherwise completed/total in percent; it is 100 percent exactly when every task is completed |
| Util.Filter | script.js:56 | `filter` keeps the elements that pass the test and no others, never lengthening the list |
| Util.FilterAppend | script.js:56 | `filter` keeps order: filtering a concatenation concatenates the filtered parts |
| Upcoming.SortDays | script.js:292 | sorting gives the same days with none before an earlier-placed one |
| Upcoming.SortDistinct | script.js:292 | sorting distinct day keys gives a strictly ascending list |
| Upcoming.GroupStep | script.js:281-288 | filing one more task under its day keeps the dictionary equal to the grouping of the tasks seen so far |
| Upcoming.GroupByDay | script.js:279-289 | the loop gives one key per day that has tasks, no key twice; under each day, that day's tasks in input order |
| Upcoming.UpcomingByDay | script.js:266-292 | the upcoming page lists the days strictly ascending; each has a non-empty group equal to its future tasks; every future task is in the group of its own day and in no other |
| Store.EditFormOf | script.js:618-622 | the edit form carries the task's id, title, description and due date, and its tags joined with ", " |
| Store.EditFormRoundTrip | script.js:618-622 | the edit form filled in from a task, submitted unchanged, writes back the task's own fields (tags comma-free, trimmed, not the single empty tag) |
| Store.TaskManager.constructor | script.js:31-42 | the list is the parsed stored list, or empty when the key is absent or does not parse; nothing has been saved |
| Store.TaskManager.Save | script.js:45-48 | saving records the current list and changes nothing else |
| Store.TaskManager.Create | script.js:446-455 | the list becomes the old list plus the new task at the end, then is saved; with a fresh id the invariants are kept |
| Store.TaskManager.Update | script.js:432-443 | the list becomes `Updated` of the old list; it is saved exactly when the id was found; the invariants are kept |
| Store.TaskManager.Submit | script.js:425-456 | the tag text is parsed; a form with an id updates that task, and one without an id appends a task whose id is `now`; a save happens exactly for a create or a found id |
| Store.TaskManager.OpenEditForm | script.js:611-622 | the form exists exactly when the id is in the list, and is filled from the task that `find` returns, tags joined with ", " |
| Store.EditAndSaveUnchanged | script.js:425-443 | opening a task in the edit form and saving it untouched leaves the list unchanged, whether or not ids are unique, and saves it once more |
| Store.TaskManager.Delete | script.js:483-490 | the list becomes `Deleted` of the old list and is saved; the invariants are kept |
| Store.TaskManager.SetCompleted | script.js:507-542 | the list becomes `Toggled` of the old list; it is saved exactly when the id was found; the invariants are kept |
| Store.TaskManager.Drop | script.js:667-678 | the loop of look-ups gives `Reordered` of the old list for the dropped ids, which is saved; with distinct ids the invariants are kept |
| Store.DropOnMainPage | script.js:673-677 | a drop on the main page, which shows only open tasks, leaves only the open tasks in the store |
| Grid.DayCell | calendar.js:78-95 | a day cell previews a prefix of the day's tasks, of length min(3, n); it shows "+n more" exactly when more than 3 are due; previews and count together account for all n |
| Grid.MonthCells | calendar.js:39-56 | the month's grid has `weekday(1st)` blanks and one cell per day, which fits in six rows of seven |
| Grid.CellAt | calendar.js:47-56 | cell `j` of the grid is blank before the 1st's weekday, and otherwise the cell of day `j - weekday(1st) + 1` |
| Grid.GridShape | calendar.js:39-56 | the grid is `weekday(1st)` blanks followed by the days 1..last in order, at most 42 cells |
| Grid.DayInItsWeekdayColumn | calendar.js:47-56 | every day is drawn in the column of its own weekday |
| Grid.RenderMonth | calendar.js:39-56 | the two loops build exactly the month's grid |
| CalendarPage.JsDate.SetMonth | calendar.js:192 | `setMonth` changes the date object in place to `Dates.SetMonth` of its old day |
| CalendarPage.Calendar.constructor | calendar.js:2-28 | the selection is the current date object itself; the list is the stored one, or empty; the grid of the start month is drawn; a date from the URL is selected |
| CalendarPage.Calendar.RenderCalendar | calendar.js:31-57 | the grid becomes that of the current date's month; nothing else changes |
| CalendarPage.Calendar.TasksForDate | calendar.js:105-110 | the tasks of the list that are due on the date's day; it is the store's day list, so it keeps store order and multiplicity (`Views.TasksOnDayKeepsStoreOrder`) |
| CalendarPage.Calendar.SelectDate | calendar.js:112-135 | the given object becomes the selection, and its day's tasks are listed |
| CalendarPage.Calendar.ClickDay | calendar.js:52-54 | a click on a day cell selects a new date object for that day |
| CalendarPage.Calendar.PreviousMonth | calendar.js:191-194 | the current date object moves to `Dates.PreviousMonth`; a separate selection keeps its day; the grid is redrawn |
| CalendarPage.Calendar.NextMonth | calendar.js:196-199 | the current date object moves to `Dates.NextMonth`; a separate selection keeps its day; the grid is redrawn |
| CalendarPage.Calendar.DeleteTask | calendar.js:168-176 | once confirmed, the list becomes `Deleted` of the old list and is saved, and the grid and the selected day's list are redrawn; unconfirmed, nothing changes |
| CalendarPage.NavigationMovesSelection | calendar.js:9 | right after the page opens, "next month" also moves the selected date |
| CalendarPage.ClickedSelectionStays | calendar.js:98 | after a day is clicked, the month buttons leave the selected day where it is |
| CalendarPage.DeleteHidesTask | calendar.js:171-174 | after a confirmed delete, the selected day's list holds no task with that id |

## Left out

- `theme.js` is left out entirely: it only sets page attributes and stores a theme flag. The sidebar toggle is left out for the same reason.
- HTML construction, event wiring, modals, notifications, `window.location` navigation and page dispatch are left out. Only the data each handler changes or shows is modelled.
- Storage and JSON text are not modelled.
  - Loading takes the parse result as an `Option`.
  - Saving appends the list to `saved`.
  - A parse error in `calendar.js:10`, which has no `try`, is not modelled.
- The clock is not modelled.
  - `Date.now()` (the new id), the completion time and "today" are parameters.
  - `completedAt` is modelled as a number, not as its ISO text.
- Time zones are not modelled. The model reads each due date as the calendar day it names. The page does not, wherever local time differs from UTC:
  - A date-only due date (`YYYY-MM-DD`) is parsed by `new Date` as UTC midnight. `setHours` and `toDateString` then read it in local time, while `toISOString` reads UTC.
  - West of UTC, the parsed due date falls on the previous local day, for every due date and not only near midnight. The calendar page (`calendar.js:107-108`) then lists each task one day before its due date, and the upcoming filter (`script.js:361-365`) excludes tasks due tomorrow.
  - East of UTC, the task page's grid (`script.js:797-798`) turns local midnight of day i into the previous ISO day. Cell i then previews the tasks due on day i−1.
- Store.TaskManager.SetCompleted: in the page, the save after checking waits 800 ms for an animation; the model saves immediately.
- Views.Progress: gives a fraction (100 × completed, total) instead of the floating-point percentage.
- Drag geometry and the moves during `dragover` are left out; only the drop-time rebuild is modelled. `createTaskElement` is left out as dead code: it calls methods that do not exist.
- The confirm dialog is the `confirmed` parameter of `CalendarPage.Calendar.DeleteTask`. Leaving the calendar to edit a task (the `editingTask` key) is left out.
- Dates are always real calendar days or absent. An empty date field is `None`. The page stores an empty date field as the empty string, which the checks `!task.dueDate` and `task.dueDate &&` (`script.js:359`, `script.js:807`, `script.js:870`) and the Invalid Date of `new Date("")` in `calendar.js:107` all treat as "no due date". Invalid dates are not modelled.
- Both grids are modelled with the same content. The task page's grid omits the preview container when a day has no tasks, which shows nothing either way. Month names, the current-day highlight and the selected-day marker are not modelled.
- The form's hidden id field is modelled as an `Option<int>`: empty is `None`.
- Dates.DayBeforeIsChronological: the ISO key order equals the lexicographic `(year, month, day)` order only for years 0..9999, whose keys are four digits.
- Upcoming.GroupByDay: requires every task to have a due date. The page calls it only on future tasks, and a task without one would make `toISOString` throw.
- CalendarPage.Calendar.constructor: requires the start day to be a real day. An unparsable `date` URL parameter, which gives an Invalid Date, is not modelled.
- Dates.DayNumber: JavaScript's `new Date(y, m, d)` reads a year argument 0..99 as 1900 + y; the model takes every year as written.
  - This affects the grids (`calendar.js:39-41`, `calendar.js:53`, `script.js:781-782`, `script.js:797`) for years 0..99.
  - Example: `new Date(99, 12, 1)` is 1 January 2000, not a day of year 100.
  - Example: February of year 0 has 28 days in the page (1900 is not a leap year) and 29 in the model.
  - Example: January of year 50 starts with no blanks in the page (1 January 1950 was a Sunday), while `Grid.Lead(50, 0)` is 6.
- Store.TaskManager.Drop: when a dropped id repeats, `find` (`script.js:673-675`) puts the same task object into the new list twice. A later in-place write then changes both entries: `Object.assign` at `script.js:436-439`, or the checkbox handler at `script.js:517-518`. The model's list holds values, so the entries are separate copies, and `Tasks.Updated` and `Tasks.Toggled` change only the first of them. The invariant-keeping lemmas for a drop require distinct ids.
