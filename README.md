# To-do list with dated and weekly tasks

This is a Dafny model of the task logic of a browser to-do list. The page keeps a list of tasks. Each task has a text, a due date (`YYYY-MM-DD`) and optionally a set of weekdays it repeats on. The page shows the tasks of one chosen date under a status filter ("all", "active", "completed").

- **One-shot task:** no repeat days. It is listed only on its due date and completed by a single flag.
- **Recurring task:** listed on each of its weekdays from its due date on. It is completed per date, through a list of completion dates.

The model covers:

- the date/recurrence filter and the status filter that decide what is listed;
- the completion lookup for a date;
- the "add", check and delete operations on the page's state.

JavaScript string comparison and `trim` are modelled character by character. The weekday of a date is computed on the proleptic Gregorian calendar.

Modules:

- `Wrappers`: `Option`.
- `JsString`: the relational string order of JavaScript (`<`, `>=` on strings) and `String.prototype.trim`.
- `Calendar`: `YYYY-MM-DD` strings, their validity, day numbers and weekdays (`getDay` numbering, 0 = Sunday). It also proves that string order and calendar order agree on valid dates.
- `Seqs`: `filter`, `indexOf` and `splice(i, 1)` on sequences.
- `Tasks`: the task record, both filters, the completion lookup, and the value-level effect of adding, toggling and removing.
- `Store`: the class `TaskStore`. Its fields `tasks`, `viewDate` and `currentFilter` mirror the page's state. Its methods `AddTask`, `ToggleTaskComplete` and `RemoveTask` update that state in place and are proved against the functions of `Tasks`.

Two choices follow the code closely:

- `Tasks.Task` is one record whose `repeatDays` and `dailyCompletedDates` may be absent, as in records saved by older versions. The code guards both (script.js:109, 131, 314, 316), so both are `Option` fields.
- A toggle of an unknown id returns silently (script.js:309), and so does `ToggleTaskComplete`.

## Model

| member | source | states |
|---|---|---|
| JsString.Less | script.js:141 | String `<` as used for `viewDate >= dueDate` and `dueDate < today` (script.js:266): a string is never less than itself, and a proper prefix is less than the longer string |
| JsString.LessMatchesFirstDifference | script.js:141 | String `<` holds exactly when `a` is a proper prefix of `b` or the first differing character of `a` is smaller |
| JsString.LessIrreflexive | script.js:266 | No string is less than itself, so a due date equal to today is accepted |
| JsString.LessAsymmetric | script.js:141 | `a < b` and `b < a` never hold together |
| JsString.LessTotal | script.js:141 | Of two different strings, one is less than the other |
| JsString.IsWhiteSpace | script.js:256 | The characters `trim` removes: exactly ECMAScript WhiteSpace (tab, vertical tab, form feed, space, no-break space, byte order mark, the space separators) and LineTerminator (line feed, carriage return, U+2028, U+2029). None is a digit, a Latin letter or a dash, so dates and words are never trimmed |
| JsString.LeadingSpace | script.js:256 | Counts the leading white space: all of it is white space and the next character is not |
| JsString.TrailingStart | script.js:256 | Finds where trailing white space begins: everything after it is white space and the character before it is not |
| JsString.Trim | script.js:256 | `trim` returns no longer a string, and the result neither starts nor ends with white space |
| JsString.TrimDropsOnlyWhiteSpace | script.js:256 | The trimmed text is an infix of the input, and everything outside it is white space |
| JsString.TrimKeepsVisibleEnds | script.js:256 | Text that starts and ends with a visible character is unchanged by `trim` and is not blank |
| JsString.TrimEmptyIffBlank | script.js:256-257 | `trim` gives `""` exactly when the input is all white space, the case "add" refuses |
| Calendar.DigitsValue | script.js:126 | Reads the year, month and day numbers of a date for its weekday: the value of a digit string is below 10 to the power of its length, which the proof that string order is numeric order relies on |
| Calendar.DigitsOrder | script.js:141 | On digit strings of equal length, string `<` is numeric `<` and string equality is numeric equality |
| Calendar.DaysInMonth | script.js:126 | Every month has 28 to 31 days |
| Calendar.DayNumberIncreasing | script.js:141 | Day numbers strictly increase with (year, month, day) in lexicographic order |
| Calendar.DateShapeOrder | script.js:141 | On `YYYY-MM-DD` strings, string `<` is lexicographic order on (year, month, day) |
| Calendar.StringOrderIsCalendarOrder | script.js:141 | On valid dates, `a < b` as strings exactly when `a` is an earlier day, and equal strings exactly when it is the same day, so `>=` means "on or after" |
| Calendar.WeekdayOf | script.js:126 | `getDay()` of `date + "T00:00:00"` is defined exactly for valid dates and is then 0..6 |
| Calendar.WeekdayPeriodic | script.js:126 | Dates a whole number of weeks apart share a weekday, and the next day has the next weekday |
| Calendar.EpochWeekday | script.js:126 | 1970-01-01 is a Thursday (4), anchoring the weekday numbering |
| Calendar.SecondMondayOf2024 | script.js:126 | 2024-01-08 is a Monday (1) |
| Calendar.FirstTuesdayOf2024 | script.js:126 | 2024-01-02 is a Tuesday (2) |
| Seqs.Filter | script.js:129 | `filter` keeps only elements satisfying the predicate, all taken from the input, and never grows the list |
| Seqs.FilterIsSubsequence | script.js:129 | `filter` keeps the original order |
| Seqs.FilterCount | script.js:147 | `filter` keeps each satisfying element exactly as often as it occurs and drops every other |
| Seqs.FilterKeepsAll | script.js:155 | A predicate true of every element keeps the list unchanged |
| Seqs.FilterSplit | script.js:150-153 | Two complementary predicates split a list: their results add up to the list, counts and lengths alike |
| Seqs.FilterNoDuplicates | script.js:129 | Filtering a duplicate-free list yields a duplicate-free list |
| Seqs.IndexOf | script.js:320 | `indexOf` gives -1 exactly when the value is absent, else a position holding it with no earlier occurrence |
| Seqs.RemoveAt | script.js:323 | `splice(i, 1)` removes exactly one occurrence of the element at `i` |
| Tasks.OneShotCompletionIgnoresDate | script.js:104-105 | With the corrected lookup, a one-shot task's completion is its `completed` flag on every viewed date alike |
| Tasks.IsCompletedForDayAsWritten | script.js:102-113 | The lookup as written fails (TypeError) exactly for records without `repeatDays`, and otherwise agrees with the corrected lookup |
| Tasks.LegacyTaskBreaksLookup | script.js:104 | A record without `repeatDays` passes the date filter on its due date and then makes the as-written lookup fail |
| Tasks.MissingRepeatDaysActAsEmpty | script.js:102-113 | In the corrected lookup, a missing repeat list behaves exactly as an empty one, as in the date filter and the toggle |
| Tasks.PassesDateFilter | script.js:129-144 | The date/recurrence filter. A recurring task passes only on a valid date, and, when its due date is valid, only on or after that day on the calendar |
| Tasks.StatusComplement | script.js:147-156 | Every task passes exactly one of "active" and "completed" on a date, and any other filter lets every task through |
| Tasks.ScheduledOn | script.js:129-144 | The tasks of a date: no more than stored, each stored and passing the date filter |
| Tasks.VisibleTasks | script.js:129-156 | The list shown: no more than stored, each stored and passing both filters |
| Tasks.VisibleIsSubsequence | script.js:129-156 | The listed tasks are the stored ones in stored order, with some left out |
| Tasks.VisibleCount | script.js:129-156 | A task is listed as often as stored if it passes both filters, otherwise never |
| Tasks.VisibleMembership | script.js:129-156 | A task is listed exactly when it is stored and passes the date filter and the status filter |
| Tasks.VisibleNoDuplicates | script.js:129-156 | With distinct ids, no task is listed twice |
| Tasks.AllShowsWholeDay | script.js:155 | Any filter other than "active" and "completed" lists every task of the date |
| Tasks.StatusPartition | script.js:147-156 | "active" and "completed" split the date's tasks: their counts and lengths add up to "all", the first holds only open tasks, the second only done ones |
| Tasks.OneShotShownOnlyOnDueDate | script.js:131-133 | A one-shot task is listed exactly on its due date |
| Tasks.RecurringShownIff | script.js:137-143 | A recurring task is listed exactly on its repeat weekdays when the view date is `>=` its due date |
| Tasks.RecurringShownOnCalendar | script.js:126-143 | For valid dates: listed exactly when the view date's weekday is a repeat day and the view date is on or after the due date |
| Tasks.RecurringHasNoEnd | script.js:137-143 | A recurring task that passes the date filter on a valid date passes it again every whole number of weeks later: recurrence has no end date |
| Tasks.MondayWednesdayExample | script.js:126-143 | A Monday/Wednesday task from 2024-01-01 is listed on 2024-01-08, not on 2023-12-25 (before the start), not on Tuesday 2024-01-02 |
| Tasks.IndexOfId | script.js:308-309 | `findIndex` by id: -1 exactly when no task has the id, else the first position with it |
| Tasks.EffectiveDueDate | script.js:263 | `taskDueDate.value || today`: an entered date is used as is, and an empty field gives today's date |
| Tasks.NewTask | script.js:276-284 | A new task is not completed on its due date, has no completion dates, and is one-shot exactly when no weekday was chosen |
| Tasks.AddedOneShotShownOnce | script.js:286-298 | A new one-shot task under a fresh id is listed exactly once on its due date, except under "completed" |
| Tasks.ToggleDate | script.js:320-326 | Toggling a date removes it from the completion list when present and appends it otherwise; other dates stay; the list stays duplicate-free |
| Tasks.ToggleCompletion | script.js:314-330 | Toggling changes only `completed` or `dailyCompletedDates` |
| Tasks.ToggleFlipsCompletion | script.js:314-330 | Toggling flips completion on the viewed date and keeps the dates the task is listed on. A recurring task keeps its completion on other dates; a one-shot task flips on all of them |
| Tasks.EquivalentLooksSame | script.js:102-156 | Tasks differing only in the order of completion dates are listed, and completed, on the same dates: a recurring task's completion depends only on whether the date is recorded |
| Tasks.ToggleTwice | script.js:314-330 | Toggling twice on one date restores the task: exactly if one-shot, up to date order if recurring |
| Tasks.ToggleById | script.js:307-330 | Toggling by id keeps the list length and every id. The first task with the id becomes its toggled version, and every other task is unchanged |
| Tasks.ToggleByIdTwice | script.js:307-330 | Toggling the same id twice on one date leaves every task equivalent to before |
| Tasks.WithoutId | script.js:338 | `filter(t => t.id !== id)`: no more tasks than before, each stored and none with the id |
| Tasks.RemoveKeepsOthers | script.js:338 | Removing by id keeps each task with another id as often as before, in order, and drops every task with the id |
| Tasks.FilterKeepsUniqueIds | script.js:338 | Filtering keeps ids distinct |
| Tasks.RemoveIdempotent | script.js:338 | Removing an absent id changes nothing, so removing twice equals removing once |
| Store.TaskStore.constructor | script.js:65-78 | Start-up holds the saved list (or none) and views today under "all" |
| Store.TaskStore.Shown | script.js:121-156 | The list shown is an ordered sub-list of the tasks and holds exactly those passing both filters for the current date and filter |
| Store.TaskStore.AddTask | script.js:255-298 | Blank text is refused exactly when blank, and a due date before today exactly when so, both with no change. Otherwise one new open task with the trimmed text is appended, and a one-shot task moves the view to its due date and is shown once. The due date is never before today on the calendar, and ids stay distinct |
| Store.TaskStore.ToggleTaskComplete | script.js:307-330 | The state becomes the list toggled by id. An unknown id changes nothing. The found task's completion on the viewed date flips, and the list stays well formed |
| Store.TaskStore.RemoveTask | script.js:337-338 | The state becomes the list without the id, holding exactly the old tasks with other ids |
| Store.TaskStore.SelectViewDate | script.js:352 | Picking a date changes only the viewed date |
| Store.TaskStore.SelectFilter | script.js:357 | Pressing a filter button changes only the current filter |
| Store.AppendKeepsWellFormed | script.js:286 | Appending a task under a fresh id with no completion dates keeps ids distinct |
| Store.ToggleKeepsWellFormed | script.js:307-330 | Toggling keeps ids distinct and completion lists duplicate-free, and flips the found task on the viewed date |
| Store.AddExample | script.js:255-301 | Adding a visibly non-blank text for today, with no due date entered, lists just that task, open, under "all" |
| Store.CheckExample | script.js:147-156 | Checking today's open one-shot task lists it under "completed" and leaves "active" empty |

## Left out

- Rendering the list (script.js:158-251) is not modelled. This includes the empty-list message, the date header and the locale date formatting (script.js:25-62, 81-97). It is DOM output; the model stops at the list `Shown` would render.
- Persistence through `localStorage` and JSON (script.js:65-69, 116-118) is not modelled. The saved list is a constructor parameter, and saving after each change is not modelled.
- The clock is not modelled. Today's date (`getTodayDateString`) is a parameter, and so are `Date.now()` and `new Date().toISOString()`, which give the new task's id and creation time.
- Event listeners, `alert` messages and field resets are not modelled (script.js:258, 267, 289-292, 344-362). The filter string derived from a button's id (`this.id.replace(...)`) is passed to `SelectFilter` as a parameter, and the checked weekday boxes are passed as `repeatDays`.
- `new Date(s + "T00:00:00").getDay()` becomes arithmetic on the proleptic Gregorian calendar, which is how it behaves on valid `YYYY-MM-DD` input. Invalid input, including days past the end of the month, gives no weekday (`None`). JavaScript engines differ on out-of-range days.
- Calendar.WeekdayOf: dates whose year has more than four digits (a date field accepts them) get no weekday, so a recurring task is never listed on them. On such dates string order also no longer follows the calendar. `AddTask` still compares them as strings, as the page does, so a due date like "10000-01-01" is refused as past.
- A recurring task whose weekday list holds `NaN` is not modelled: weekdays are integers. `parseInt` of a missing `data-day` would give `NaN`, and `includes(NaN)` would match an invalid view date.
- Characters are compared by Unicode code point. JavaScript compares UTF-16 code units, and the two orders differ only between supplementary-plane characters and characters from U+E000 up.
- Store.TaskStore.Shown: uses the corrected completion lookup. For a stored record without `repeatDays` on its due date, the page throws a TypeError and draws no list, where the model returns one (see Findings).
- Store.TaskStore.ToggleTaskComplete: the task record is replaced in the list rather than mutated through a shared reference. The page holds no other reference to a task, so nothing observable differs.
- Store.TaskStore.AddTask: requires a fresh id. `Date.now()` could repeat within one millisecond, and the model does not cover two tasks sharing an id.
- Store.TaskStore.constructor: requires the saved list to have distinct ids and duplicate-free completion lists, the invariant every operation keeps. Hand-edited storage that breaks it is not covered.
- Tasks.ToggleTwice: a recurring task comes back equal only up to the order of its completion dates, because a date spliced out of the middle is pushed back at the end.

## Findings

| source | as written | input that shows it | evidently intended | confidence | as-written member | corrected member |
|---|---|---|---|---|---|---|
| script.js:104 | `isTaskCompletedForDay` reads `task.repeatDays.length` with no check that the field exists, unlike the date filter (script.js:131) and the toggle (script.js:314) | a stored task without a `repeatDays` field viewed on its due date: the date filter keeps it, then the status filter throws a TypeError and the list is not rendered | treat a missing `repeatDays` as an empty list, i.e. a one-shot task completed by its flag | not executed | Tasks.IsCompletedForDayAsWritten, Tasks.LegacyTaskBreaksLookup | Tasks.MissingRepeatDaysActAsEmpty |
