/**
 * The page's state as one object: the task list, the date being viewed and the
 * status filter, with the operations behind the "add", check and delete
 * buttons and the view-date and filter controls.
 */
module Store {
  import opened Wrappers
  import opened JsString
  import opened Calendar
  import opened Seqs
  import opened Tasks

  /** What pressing "add" did: refused blank text, refused a past due date, or added a task. */
  datatype AddOutcome = EmptyText | PastDueDate | Added(task: Task)

  /** Task lists as the page keeps them: distinct ids, no completion date twice. */
  predicate WellFormed(tasks: seq<Task>)
  {
    UniqueIds(tasks) && forall i :: 0 <= i < |tasks| ==> NoDuplicates(CompletedDates(tasks[i]))
  }

  class TaskStore {
    var tasks: seq<Task>
    var viewDate: string
    var currentFilter: string

    ghost predicate Valid()
      reads this
    {
      WellFormed(tasks)
    }

    /** Start-up: the saved list if there is one (else none), viewing today under "all". */
    constructor (saved: Option<seq<Task>>, today: string)
      requires saved.Some? ==> WellFormed(saved.value)
      ensures Valid()
      ensures tasks == saved.GetOr([]) && viewDate == today && currentFilter == "all"
    {
      tasks := saved.GetOr([]);
      viewDate := today;
      currentFilter := "all";
    }

    /** The list the page shows: the viewed date's tasks that pass the current filter, in stored order. */
    function Shown(): (r: seq<Task>)
      reads this
      ensures IsSubsequence(r, tasks)
      ensures forall t :: t in r <==> t in tasks && PassesDateFilter(t, viewDate)
                                      && PassesStatusFilter(t, viewDate, currentFilter)
    {
      VisibleIsSubsequence(tasks, viewDate, currentFilter);
      VisibleMembership(tasks, viewDate, currentFilter);
      VisibleTasks(tasks, viewDate, currentFilter)
    }

    /**
     * The "add" button. Blank text and a due date before today are refused
     * with no change; otherwise a new open task is appended, and a one-shot
     * task moves the view to its due date.
     */
    method AddTask(input: string, dueInput: string, repeatDays: seq<int>, today: string, id: int, createdAt: string)
      returns (outcome: AddOutcome)
      requires Valid()
      requires forall i :: 0 <= i < |tasks| ==> tasks[i].id != id
      modifies this
      ensures Valid()
      ensures currentFilter == old(currentFilter)
      ensures outcome.EmptyText? <==> IsBlank(input)
      ensures outcome.PastDueDate? <==> !IsBlank(input) && Less(EffectiveDueDate(dueInput, today), today)
      ensures !outcome.Added? ==> tasks == old(tasks) && viewDate == old(viewDate)
      ensures outcome.Added? ==>
                && outcome.task == NewTask(id, Trim(input), createdAt, repeatDays, EffectiveDueDate(dueInput, today))
                && tasks == old(tasks) + [outcome.task]
                && viewDate == (if repeatDays == [] then outcome.task.dueDate else old(viewDate))
      ensures outcome.Added? && repeatDays == [] ==>
                multiset(Shown())[outcome.task] == if currentFilter == "completed" then 0 else 1
      ensures outcome.Added? && IsValidDate(today) && IsValidDate(outcome.task.dueDate) ==>
                DateNumber(today) <= DateNumber(outcome.task.dueDate)
    {
      TrimEmptyIffBlank(input);
      var text := Trim(input);
      if text == "" {
        return EmptyText;
      }
      var dueDate := if dueInput == "" then today else dueInput;
      if Less(dueDate, today) {
        return PastDueDate;
      }
      var task := Task(id, text, false, createdAt, Some(repeatDays), dueDate, Some([]));
      assert task !in tasks;
      AppendKeepsWellFormed(tasks, task);
      tasks := tasks + [task];
      if dueDate != viewDate && |repeatDays| == 0 {
        viewDate := dueDate;
      }
      outcome := Added(task);
      if repeatDays == [] {
        AddedOneShotShownOnce(old(tasks), task, currentFilter);
      }
      if IsValidDate(today) && IsValidDate(dueDate) {
        StringOrderIsCalendarOrder(dueDate, today);
      }
    }

    /**
     * The check button of task `id` while `viewDate` is shown: a one-shot task
     * flips its flag; a recurring task drops the viewed date from its
     * completion list if there (`splice`) or appends it (`push`). An unknown
     * id changes nothing.
     */
    method ToggleTaskComplete(id: int)
      requires Valid()
      modifies this
      ensures Valid()
      ensures viewDate == old(viewDate) && currentFilter == old(currentFilter)
      ensures tasks == ToggleById(old(tasks), id, viewDate)
      ensures IndexOfId(old(tasks), id) == -1 ==> tasks == old(tasks)
      ensures var i := IndexOfId(old(tasks), id);
              i >= 0 ==> IsCompletedForDay(tasks[i], viewDate) == !IsCompletedForDay(old(tasks)[i], viewDate)
    {
      var i := IndexOfId(tasks, id);
      if i == -1 {
        return;
      }
      ghost var before := tasks;
      var task := tasks[i];
      if !IsOneShot(task) {
        task := task.(dailyCompletedDates := Some(ToggleDate(CompletedDates(task), viewDate)));
      } else {
        task := task.(completed := !task.completed);
      }
      assert task == ToggleCompletion(before[i], viewDate);
      tasks := tasks[i := task];
      assert tasks == ToggleById(before, id, viewDate);
      ToggleKeepsWellFormed(before, id, viewDate);
    }

    /** The delete button of task `id`: every task with that id goes, the rest stay in order. */
    method RemoveTask(id: int)
      requires Valid()
      modifies this
      ensures Valid()
      ensures viewDate == old(viewDate) && currentFilter == old(currentFilter)
      ensures tasks == WithoutId(old(tasks), id)
      ensures forall t :: t in tasks <==> t in old(tasks) && t.id != id
    {
      forall t {
        RemoveKeepsOthers(tasks, id, t);
      }
      FilterKeepsUniqueIds(tasks, IdDiffers(id));
      tasks := WithoutId(tasks, id);
    }

    /** A new date picked in the view-date selector. */
    method SelectViewDate(date: string)
      requires Valid()
      modifies this
      ensures Valid()
      ensures tasks == old(tasks) && currentFilter == old(currentFilter) && viewDate == date
    {
      viewDate := date;
    }

    /** A status filter button pressed ("all", "active" or "completed", from the button's id). */
    method SelectFilter(filter: string)
      requires Valid()
      modifies this
      ensures Valid()
      ensures tasks == old(tasks) && viewDate == old(viewDate) && currentFilter == filter
    {
      currentFilter := filter;
    }
  }

  /** Appending a task under a fresh id with an empty completion list keeps the list well formed. */
  lemma AppendKeepsWellFormed(tasks: seq<Task>, t: Task)
    requires WellFormed(tasks) && NoDuplicates(CompletedDates(t))
    requires forall i :: 0 <= i < |tasks| ==> tasks[i].id != t.id
    ensures WellFormed(tasks + [t])
  {
  }

  /** Toggling by id keeps the list well formed and flips the toggled task's completion on the viewed date. */
  lemma ToggleKeepsWellFormed(tasks: seq<Task>, id: int, viewDate: string)
    requires WellFormed(tasks)
    ensures WellFormed(ToggleById(tasks, id, viewDate))
    ensures var i := IndexOfId(tasks, id);
            i >= 0 ==> IsCompletedForDay(ToggleById(tasks, id, viewDate)[i], viewDate) == !IsCompletedForDay(tasks[i], viewDate)
  {
    var i := IndexOfId(tasks, id);
    if i >= 0 {
      ToggleFlipsCompletion(tasks[i], viewDate, viewDate);
    }
  }

  /** Adding a task such as "Buy milk" for today lists it, open, under "all". */
  method AddExample(text: string, today: string) returns (all: seq<Task>)
    requires text != [] && !IsWhiteSpace(text[0]) && !IsWhiteSpace(text[|text| - 1])
    ensures |all| == 1 && all[0].text == text && all[0].dueDate == today && !all[0].completed
  {
    LessIrreflexive(today);
    TrimKeepsVisibleEnds(text);
    var store := new TaskStore(None, today);
    var outcome := store.AddTask(text, "", [], today, 1, "2024-03-01T09:00:00.000Z");
    var t := outcome.task;
    assert store.tasks == [t] && store.viewDate == today && store.currentFilter == "all";
    SingleTaskVisible(t, today, "all");
    all := store.Shown();
  }

  /** Checking today's open one-shot task lists it under "completed" and leaves "active" empty. */
  method CheckExample(t: Task, today: string) returns (done: seq<Task>, open: seq<Task>)
    requires IsOneShot(t) && !t.completed && t.dueDate == today && NoDuplicates(CompletedDates(t))
    ensures done == [t.(completed := true)] && done[0].completed
    ensures open == []
  {
    var store := new TaskStore(Some([t]), today);
    store.ToggleTaskComplete(t.id);
    var t' := t.(completed := true);
    assert store.tasks == [t'];
    store.SelectFilter("completed");
    SingleTaskVisible(t', today, "completed");
    done := store.Shown();
    store.SelectFilter("active");
    SingleTaskVisible(t', today, "active");
    open := store.Shown();
  }
}
