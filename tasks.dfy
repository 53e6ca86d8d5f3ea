/**
 * Tasks of the to-do list and the pure logic over them: which tasks a given
 * date shows (date/recurrence filter, then status filter), whether a task is
 * complete on a date, and the value-level effect of adding, toggling and
 * removing tasks.
 */
module Tasks {
  import opened Wrappers
  import opened JsString
  import opened Calendar
  import opened Seqs

  /**
   * A task record as stored. `repeatDays` holds weekday numbers (0 = Sunday);
   * it and `dailyCompletedDates` may be missing from records saved by older
   * versions, hence Option.
   */
  datatype Task = Task(
    id: int,
    text: string,
    completed: bool,
    createdAt: string,
    repeatDays: Option<seq<int>>,
    dueDate: string,
    dailyCompletedDates: Option<seq<string>>)

  /** The weekdays a task repeats on; a missing list counts as empty. */
  function RepeatDays(t: Task): seq<int>
  {
    t.repeatDays.GetOr([])
  }

  /** A task without repeat days is due once, on its due date. */
  predicate IsOneShot(t: Task)
  {
    |RepeatDays(t)| == 0
  }

  /** The dates a recurring task was completed on; a missing list counts as empty. */
  function CompletedDates(t: Task): seq<string>
  {
    t.dailyCompletedDates.GetOr([])
  }

  // ---------------------------------------------------------------------------
  // Date/recurrence filter

  /** The weekday of `viewDate` is one of the task's repeat days. */
  predicate IsScheduledDay(t: Task, viewDate: string)
  {
    var w := WeekdayOf(viewDate);
    w.Some? && w.value in RepeatDays(t)
  }

  /**
   * Whether the task is listed on `viewDate`: a one-shot task only on its due
   * date, a recurring task on its repeat days from its due date on
   * (`viewDate >= dueDate` as strings).
   */
  predicate PassesDateFilter(t: Task, viewDate: string)
    ensures PassesDateFilter(t, viewDate) && !IsOneShot(t)
            ==> IsValidDate(viewDate)
                && (IsValidDate(t.dueDate) ==> DateNumber(t.dueDate) <= DateNumber(viewDate))
  {
    if IsOneShot(t) then t.dueDate == viewDate
    else
      CalendarOrderOfValidDates(viewDate, t.dueDate);
      IsScheduledDay(t, viewDate) && !Less(viewDate, t.dueDate)
  }

  // ---------------------------------------------------------------------------
  // Completion on a date

  /**
   * Whether the task counts as done on `viewDate`: the single flag for a
   * one-shot task, membership of `viewDate` in the completion list for a
   * recurring one. A missing repeat-day list counts as empty, as the date
   * filter and the toggle treat it.
   */
  predicate IsCompletedForDay(t: Task, viewDate: string)
  {
    if IsOneShot(t) then t.completed else viewDate in CompletedDates(t)
  }

  /** A one-shot task has a single completion state: its flag, whichever date is viewed. */
  lemma OneShotCompletionIgnoresDate(t: Task, a: string, b: string)
    requires IsOneShot(t)
    ensures IsCompletedForDay(t, a) == IsCompletedForDay(t, b) == t.completed
  {
  }

  /**
   * The completion lookup as the source writes it: it reads the length of
   * `repeatDays` without checking that the list exists, so a record without
   * one raises a TypeError (None here) instead of answering.
   */
  function IsCompletedForDayAsWritten(t: Task, viewDate: string): (r: Option<bool>)
    ensures r.None? <==> t.repeatDays.None?
    ensures r.Some? ==> r.value == IsCompletedForDay(t, viewDate)
  {
    match t.repeatDays
    case None => None
    case Some(days) => Some(if |days| == 0 then t.completed else viewDate in CompletedDates(t))
  }

  /**
   * Every record without a repeat-day list passes the date filter on its own
   * due date and then makes the as-written lookup fail: the whole list for
   * that date cannot be computed.
   */
  lemma LegacyTaskBreaksLookup(t: Task)
    requires t.repeatDays.None?
    ensures PassesDateFilter(t, t.dueDate)
    ensures IsCompletedForDayAsWritten(t, t.dueDate).None?
  {
  }

  /**
   * With the corrected lookup, a record without a repeat-day list behaves in
   * every operation like the same record with an empty list: listed only on its
   * due date, completed by its flag, and toggled by flipping that flag.
   */
  lemma MissingRepeatDaysActAsEmpty(t: Task, viewDate: string)
    requires t.repeatDays.None?
    ensures var u := t.(repeatDays := Some([]));
            && PassesDateFilter(t, viewDate) == PassesDateFilter(u, viewDate) == (t.dueDate == viewDate)
            && IsCompletedForDay(t, viewDate) == IsCompletedForDay(u, viewDate) == t.completed
            && IsCompletedForDayAsWritten(u, viewDate) == Some(t.completed)
            && ToggleCompletion(t, viewDate) == t.(completed := !t.completed)
  {
  }

  // ---------------------------------------------------------------------------
  // Status filter and the visible list

  /** The status filter: "active" keeps open tasks, "completed" done ones, anything else ("all") every task. */
  predicate PassesStatusFilter(t: Task, viewDate: string, filter: string)
  {
    var done := IsCompletedForDay(t, viewDate);
    if filter == "active" then !done
    else if filter == "completed" then done
    else true
  }

  /** Every task passes exactly one of "active" and "completed", and every other filter lets all tasks through. */
  lemma StatusComplement(t: Task, viewDate: string, filter: string)
    ensures PassesStatusFilter(t, viewDate, "active") != PassesStatusFilter(t, viewDate, "completed")
    ensures filter != "active" && filter != "completed" ==> PassesStatusFilter(t, viewDate, filter)
  {
  }

  function DateKeep(viewDate: string): Task -> bool
  {
    (t: Task) => PassesDateFilter(t, viewDate)
  }

  function StatusKeep(viewDate: string, filter: string): Task -> bool
  {
    (t: Task) => PassesStatusFilter(t, viewDate, filter)
  }

  /** The tasks of one date, before the status filter. */
  function ScheduledOn(tasks: seq<Task>, viewDate: string): (r: seq<Task>)
    ensures |r| <= |tasks|
    ensures forall i :: 0 <= i < |r| ==> r[i] in tasks && PassesDateFilter(r[i], viewDate)
  {
    Filter(tasks, DateKeep(viewDate))
  }

  /** The list shown for `viewDate` under `filter`. */
  function VisibleTasks(tasks: seq<Task>, viewDate: string, filter: string): (r: seq<Task>)
    ensures |r| <= |tasks|
    ensures forall i :: 0 <= i < |r| ==> r[i] in tasks && PassesDateFilter(r[i], viewDate)
                                         && PassesStatusFilter(r[i], viewDate, filter)
  {
    Filter(ScheduledOn(tasks, viewDate), StatusKeep(viewDate, filter))
  }

  /** The shown list keeps the stored order and only leaves tasks out. */
  lemma VisibleIsSubsequence(tasks: seq<Task>, viewDate: string, filter: string)
    ensures IsSubsequence(VisibleTasks(tasks, viewDate, filter), tasks)
  {
    var day := ScheduledOn(tasks, viewDate);
    FilterIsSubsequence(tasks, DateKeep(viewDate));
    FilterIsSubsequence(day, StatusKeep(viewDate, filter));
    SubsequenceTransitive(VisibleTasks(tasks, viewDate, filter), day, tasks);
  }

  /**
   * A task is shown exactly as often as it is stored when it passes both
   * filters, and not at all otherwise: nothing is added or repeated.
   */
  lemma VisibleCount(tasks: seq<Task>, viewDate: string, filter: string, t: Task)
    ensures multiset(VisibleTasks(tasks, viewDate, filter))[t]
            == if PassesDateFilter(t, viewDate) && PassesStatusFilter(t, viewDate, filter)
               then multiset(tasks)[t] else 0
  {
    FilterCount(tasks, DateKeep(viewDate), t);
    FilterCount(ScheduledOn(tasks, viewDate), StatusKeep(viewDate, filter), t);
  }

  /** A task is shown exactly when it is stored and passes both filters. */
  lemma VisibleMembership(tasks: seq<Task>, viewDate: string, filter: string)
    ensures forall t :: t in VisibleTasks(tasks, viewDate, filter)
                        <==> t in tasks && PassesDateFilter(t, viewDate) && PassesStatusFilter(t, viewDate, filter)
  {
    forall t {
      VisibleCount(tasks, viewDate, filter, t);
    }
  }

  /** A list of one task shows that task or nothing. */
  lemma SingleTaskVisible(t: Task, viewDate: string, filter: string)
    ensures VisibleTasks([t], viewDate, filter)
            == if PassesDateFilter(t, viewDate) && PassesStatusFilter(t, viewDate, filter) then [t] else []
  {
    assert [t][1..] == [];
  }

  /** Tasks with distinct ids are listed at most once each. */
  lemma VisibleNoDuplicates(tasks: seq<Task>, viewDate: string, filter: string)
    requires UniqueIds(tasks)
    ensures NoDuplicates(VisibleTasks(tasks, viewDate, filter))
  {
    FilterNoDuplicates(tasks, DateKeep(viewDate));
    FilterNoDuplicates(ScheduledOn(tasks, viewDate), StatusKeep(viewDate, filter));
  }

  /** Any filter other than "active" and "completed" keeps every task of the date. */
  lemma AllShowsWholeDay(tasks: seq<Task>, viewDate: string, filter: string)
    requires filter != "active" && filter != "completed"
    ensures VisibleTasks(tasks, viewDate, filter) == ScheduledOn(tasks, viewDate)
  {
    FilterKeepsAll(ScheduledOn(tasks, viewDate), StatusKeep(viewDate, filter));
  }

  /**
   * "active" and "completed" partition the tasks of the date: together they
   * hold each task as often as "all" does, the first only open tasks, the
   * second only done ones.
   */
  lemma StatusPartition(tasks: seq<Task>, viewDate: string)
    ensures multiset(VisibleTasks(tasks, viewDate, "active")) + multiset(VisibleTasks(tasks, viewDate, "completed"))
            == multiset(VisibleTasks(tasks, viewDate, "all"))
    ensures |VisibleTasks(tasks, viewDate, "active")| + |VisibleTasks(tasks, viewDate, "completed")|
            == |VisibleTasks(tasks, viewDate, "all")|
    ensures forall t :: t in VisibleTasks(tasks, viewDate, "active") ==> !IsCompletedForDay(t, viewDate)
    ensures forall t :: t in VisibleTasks(tasks, viewDate, "completed") ==> IsCompletedForDay(t, viewDate)
  {
    var day := ScheduledOn(tasks, viewDate);
    AllShowsWholeDay(tasks, viewDate, "all");
    FilterSplit(day, StatusKeep(viewDate, "active"), StatusKeep(viewDate, "completed"));
  }

  /** A one-shot task is listed on its due date and on no other date, earlier or later. */
  lemma OneShotShownOnlyOnDueDate(tasks: seq<Task>, t: Task, viewDate: string)
    requires t in tasks && IsOneShot(t)
    ensures t in VisibleTasks(tasks, viewDate, "all") <==> t.dueDate == viewDate
  {
    VisibleCount(tasks, viewDate, "all", t);
  }

  /** A recurring task is listed exactly on its repeat days not before its due date. */
  lemma RecurringShownIff(tasks: seq<Task>, t: Task, viewDate: string)
    requires t in tasks && !IsOneShot(t)
    ensures t in VisibleTasks(tasks, viewDate, "all")
            <==> IsScheduledDay(t, viewDate) && !Less(viewDate, t.dueDate)
  {
    VisibleCount(tasks, viewDate, "all", t);
  }

  /**
   * On the calendar: for valid dates, a recurring task is listed exactly on the
   * days whose weekday it repeats on, from its due date on, with no end.
   */
  lemma RecurringShownOnCalendar(tasks: seq<Task>, t: Task, viewDate: string)
    requires t in tasks && !IsOneShot(t)
    requires IsValidDate(viewDate) && IsValidDate(t.dueDate)
    ensures t in VisibleTasks(tasks, viewDate, "all")
            <==> WeekdayOf(viewDate).value in RepeatDays(t) && DateNumber(t.dueDate) <= DateNumber(viewDate)
  {
    RecurringShownIff(tasks, t, viewDate);
    StringOrderIsCalendarOrder(viewDate, t.dueDate);
  }

  /** Once a recurring task passes the date filter on a valid date, it passes it every week after. */
  lemma RecurringHasNoEnd(t: Task, shown: string, later: string, weeks: nat)
    requires !IsOneShot(t) && PassesDateFilter(t, shown)
    requires IsValidDate(shown) && IsValidDate(later) && IsValidDate(t.dueDate)
    requires DateNumber(later) == DateNumber(shown) + 7 * weeks
    ensures PassesDateFilter(t, later)
  {
    StringOrderIsCalendarOrder(shown, t.dueDate);
    WeekdayPeriodic(shown, later, weeks);
    StringOrderIsCalendarOrder(later, t.dueDate);
  }

  /** Mondays and Wednesdays from Monday 2024-01-01: shown the Monday after, not the week before, not on Tuesday. */
  lemma MondayWednesdayExample(t: Task)
    requires t.repeatDays == Some([1, 3]) && t.dueDate == "2024-01-01"
    ensures PassesDateFilter(t, "2024-01-08")
    ensures !PassesDateFilter(t, "2023-12-25")
    ensures !PassesDateFilter(t, "2024-01-02")
  {
    assert RepeatDays(t) == [1, 3] && !IsOneShot(t);
    SecondMondayOf2024();
    assert IsScheduledDay(t, "2024-01-08");
    FirstTuesdayOf2024();
    assert !IsScheduledDay(t, "2024-01-02");
    StartOf2024Order();
  }

  // ---------------------------------------------------------------------------
  // Ids

  /** No two stored tasks share an id. */
  predicate UniqueIds(tasks: seq<Task>)
  {
    forall i, j :: 0 <= i < j < |tasks| ==> tasks[i].id != tasks[j].id
  }

  /** `tasks.findIndex(t => t.id === id)`: the first position with that id, or -1. */
  function IndexOfId(tasks: seq<Task>, id: int): (r: int)
    ensures -1 <= r < |tasks|
    ensures r == -1 <==> forall i :: 0 <= i < |tasks| ==> tasks[i].id != id
    ensures r >= 0 ==> tasks[r].id == id && forall i :: 0 <= i < r ==> tasks[i].id != id
  {
    if tasks == [] then -1
    else if tasks[0].id == id then 0
    else
      var k := IndexOfId(tasks[1..], id);
      if k == -1 then -1 else k + 1
  }

  // ---------------------------------------------------------------------------
  // Adding

  /** The due date used: the entered one, or today's when the field is empty. */
  function EffectiveDueDate(dueInput: string, today: string): (r: string)
    ensures dueInput != "" ==> r == dueInput
    ensures dueInput == "" ==> r == today
  {
    if dueInput == "" then today else dueInput
  }

  /** A freshly added task: not completed and with no completion dates. */
  function NewTask(id: int, text: string, createdAt: string, repeatDays: seq<int>, dueDate: string): (t: Task)
    ensures !IsCompletedForDay(t, dueDate) && CompletedDates(t) == []
    ensures IsOneShot(t) <==> repeatDays == []
  {
    Task(id, text, false, createdAt, Some(repeatDays), dueDate, Some([]))
  }

  /**
   * A one-shot task appended under a fresh id is listed exactly once on its
   * due date under "all" and "active", and not under "completed".
   */
  lemma AddedOneShotShownOnce(tasks: seq<Task>, t: Task, filter: string)
    requires forall i :: 0 <= i < |tasks| ==> tasks[i].id != t.id
    requires IsOneShot(t) && !t.completed
    ensures multiset(VisibleTasks(tasks + [t], t.dueDate, filter))[t] == if filter == "completed" then 0 else 1
  {
    assert t !in tasks;
    VisibleCount(tasks + [t], t.dueDate, filter, t);
  }

  // ---------------------------------------------------------------------------
  // Toggling

  /**
   * Toggling a date in a completion list: its first occurrence is removed when
   * present (`splice`), otherwise it is appended (`push`).
   */
  function ToggleDate(dates: seq<string>, viewDate: string): (r: seq<string>)
    ensures multiset(r) == if viewDate in dates then multiset(dates) - multiset{viewDate}
                           else multiset(dates) + multiset{viewDate}
    ensures NoDuplicates(dates) ==> NoDuplicates(r) && (viewDate in r <==> viewDate !in dates)
    ensures forall d :: d != viewDate ==> (d in r <==> d in dates)
  {
    var k := IndexOf(dates, viewDate);
    if k > -1 then
      RemoveOnly(dates, viewDate);
      RemoveAt(dates, k)
    else
      AppendFresh(dates, viewDate);
      dates + [viewDate]
  }

  /** The task after its check button is pressed while `viewDate` is shown. */
  function ToggleCompletion(t: Task, viewDate: string): (r: Task)
    ensures r.(completed := t.completed, dailyCompletedDates := t.dailyCompletedDates) == t
  {
    if IsOneShot(t) then t.(completed := !t.completed)
    else t.(dailyCompletedDates := Some(ToggleDate(CompletedDates(t), viewDate)))
  }

  /**
   * Toggling flips completion on the shown date and keeps the task's visibility;
   * a recurring task keeps its completion on every other date and its list
   * duplicate-free, while a one-shot task flips on every date, as it has a
   * single flag.
   */
  lemma ToggleFlipsCompletion(t: Task, viewDate: string, other: string)
    requires NoDuplicates(CompletedDates(t))
    ensures IsCompletedForDay(ToggleCompletion(t, viewDate), viewDate) == !IsCompletedForDay(t, viewDate)
    ensures PassesDateFilter(ToggleCompletion(t, viewDate), other) == PassesDateFilter(t, other)
    ensures NoDuplicates(CompletedDates(ToggleCompletion(t, viewDate)))
    ensures !IsOneShot(t) && other != viewDate
            ==> IsCompletedForDay(ToggleCompletion(t, viewDate), other) == IsCompletedForDay(t, other)
    ensures IsOneShot(t)
            ==> IsCompletedForDay(ToggleCompletion(t, viewDate), other) == !IsCompletedForDay(t, other)
  {
  }

  /** Two tasks that differ at most in the order of their completion dates or a missing versus empty list. */
  predicate Equivalent(t: Task, u: Task)
  {
    t.(dailyCompletedDates := None) == u.(dailyCompletedDates := None)
    && multiset(CompletedDates(t)) == multiset(CompletedDates(u))
  }

  /** Equivalent tasks are listed on the same dates and complete on the same dates. */
  lemma EquivalentLooksSame(t: Task, u: Task, viewDate: string)
    requires Equivalent(t, u)
    ensures PassesDateFilter(t, viewDate) == PassesDateFilter(u, viewDate)
    ensures IsCompletedForDay(t, viewDate) == IsCompletedForDay(u, viewDate)
  {
    assert t.repeatDays == u.repeatDays && t.completed == u.completed && t.dueDate == u.dueDate;
    assert viewDate in CompletedDates(t) <==> viewDate in multiset(CompletedDates(t));
    assert viewDate in CompletedDates(u) <==> viewDate in multiset(CompletedDates(u));
  }

  /**
   * Toggling twice on one date undoes the toggle: exactly for a one-shot task,
   * and up to the order of the completion dates for a recurring one.
   */
  lemma ToggleTwice(t: Task, viewDate: string)
    requires NoDuplicates(CompletedDates(t))
    ensures Equivalent(ToggleCompletion(ToggleCompletion(t, viewDate), viewDate), t)
    ensures IsOneShot(t) ==> ToggleCompletion(ToggleCompletion(t, viewDate), viewDate) == t
  {
  }

  /** `toggleTaskComplete(id)` on the list: the first task with that id is toggled, nothing else changes. */
  function ToggleById(tasks: seq<Task>, id: int, viewDate: string): (r: seq<Task>)
    ensures |r| == |tasks|
    ensures forall i :: 0 <= i < |tasks| ==> r[i].id == tasks[i].id
    ensures var i := IndexOfId(tasks, id);
            && (i >= 0 ==> r[i] == ToggleCompletion(tasks[i], viewDate))
            && forall j :: 0 <= j < |tasks| && j != i ==> r[j] == tasks[j]
  {
    var i := IndexOfId(tasks, id);
    if i == -1 then tasks else tasks[i := ToggleCompletion(tasks[i], viewDate)]
  }

  /** Toggling by id twice on one date leaves every task equivalent to what it was. */
  lemma ToggleByIdTwice(tasks: seq<Task>, id: int, viewDate: string)
    requires forall i :: 0 <= i < |tasks| ==> NoDuplicates(CompletedDates(tasks[i]))
    ensures var r := ToggleById(ToggleById(tasks, id, viewDate), id, viewDate);
            |r| == |tasks| && forall i :: 0 <= i < |tasks| ==> Equivalent(r[i], tasks[i])
  {
    var once := ToggleById(tasks, id, viewDate);
    var i := IndexOfId(tasks, id);
    assert IndexOfId(once, id) == i;
    if i != -1 {
      ToggleTwice(tasks[i], viewDate);
    }
  }

  // ---------------------------------------------------------------------------
  // Removing

  function IdDiffers(id: int): Task -> bool
  {
    (t: Task) => t.id != id
  }

  /** `tasks.filter(t => t.id !== id)`. */
  function WithoutId(tasks: seq<Task>, id: int): (r: seq<Task>)
    ensures |r| <= |tasks|
    ensures forall i :: 0 <= i < |r| ==> r[i] in tasks && r[i].id != id
  {
    Filter(tasks, IdDiffers(id))
  }

  /** Removing keeps exactly the tasks with another id, each as often as before, in their order. */
  lemma RemoveKeepsOthers(tasks: seq<Task>, id: int, t: Task)
    ensures multiset(WithoutId(tasks, id))[t] == if t.id != id then multiset(tasks)[t] else 0
    ensures IsSubsequence(WithoutId(tasks, id), tasks)
  {
    FilterCount(tasks, IdDiffers(id), t);
    FilterIsSubsequence(tasks, IdDiffers(id));
  }

  /** Filtering keeps ids distinct. */
  lemma {:induction false} FilterKeepsUniqueIds(tasks: seq<Task>, p: Task -> bool)
    requires UniqueIds(tasks)
    ensures UniqueIds(Filter(tasks, p))
  {
    if tasks != [] {
      FilterKeepsUniqueIds(tasks[1..], p);
      var rest := Filter(tasks[1..], p);
      forall j | 0 <= j < |rest| ensures rest[j].id != tasks[0].id {
        var k :| 0 <= k < |tasks[1..]| && tasks[1..][k] == rest[j];
        assert tasks[k + 1] == rest[j];
      }
    }
  }

  /** Removing an id that is not stored changes nothing, so removing twice is removing once. */
  lemma RemoveIdempotent(tasks: seq<Task>, id: int)
    ensures (forall i :: 0 <= i < |tasks| ==> tasks[i].id != id) ==> WithoutId(tasks, id) == tasks
    ensures WithoutId(WithoutId(tasks, id), id) == WithoutId(tasks, id)
  {
    if forall i :: 0 <= i < |tasks| ==> tasks[i].id != id {
      FilterKeepsAll(tasks, IdDiffers(id));
    }
    FilterKeepsAll(WithoutId(tasks, id), IdDiffers(id));
  }
}
