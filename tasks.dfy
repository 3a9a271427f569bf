/**
 * The task list page: which tasks a filter keeps, and the update sent when
 * a task's checkbox is toggled.
 */
module Tasks {
  import Seqs
  import opened Wrappers

  datatype Priority = Low | Medium | High

  /** A stored task. The description is optional; `tags` is a list of strings. */
  datatype Task = Task(
    taskId: string,
    title: string,
    description: Option<string>,
    priority: Priority,
    tags: seq<string>,
    date: string,
    completed: bool)

  // ------------------------------------------------------------------ filter

  predicate IsCompleted(t: Task) { t.completed }

  predicate IsActive(t: Task) { !t.completed }

  /**
   * The list shown for the filter selected on the page: the completed tasks
   * for `completed`, the open ones for `active`, and every task for any other
   * value (the page starts with `all`). The order of the list is kept.
   */
  function FilterTasks(tasks: seq<Task>, filter: string): (r: seq<Task>)
    ensures Seqs.IsSubsequence(r, tasks)
    ensures filter == "completed" ==> forall k :: 0 <= k < |r| ==> r[k].completed
    ensures filter == "active" ==> forall k :: 0 <= k < |r| ==> !r[k].completed
  {
    if filter == "completed" then Seqs.Filter(IsCompleted, tasks)
    else if filter == "active" then Seqs.Filter(IsActive, tasks)
    else
      Seqs.SubsequenceOfSelf(tasks);
      tasks
  }

  /** A task is shown exactly when it is in the list and matches the filter. */
  lemma FilterTasksKeeps(tasks: seq<Task>, filter: string, t: Task)
    ensures t in FilterTasks(tasks, filter) <==>
      t in tasks && (filter == "completed" ==> t.completed) && (filter == "active" ==> !t.completed)
  {
    Seqs.FilterMembership(IsCompleted, tasks);
    Seqs.FilterMembership(IsActive, tasks);
  }

  /** Every filter other than `completed` and `active` shows the whole list unchanged. */
  lemma OtherFilterKeepsAll(tasks: seq<Task>, filter: string)
    requires filter != "completed" && filter != "active"
    ensures FilterTasks(tasks, filter) == tasks
  {
  }

  /**
   * The `completed` and `active` views split the list: together they hold
   * every task exactly as often as the list does, and no task is in both.
   */
  lemma CompletedAndActivePartition(tasks: seq<Task>)
    ensures |FilterTasks(tasks, "completed")| + |FilterTasks(tasks, "active")| == |tasks|
    ensures multiset(FilterTasks(tasks, "completed")) + multiset(FilterTasks(tasks, "active")) == multiset(tasks)
    ensures forall t :: !(t in FilterTasks(tasks, "completed") && t in FilterTasks(tasks, "active"))
  {
    Seqs.FilterSplit(IsCompleted, IsActive, tasks);
    Seqs.FilterMembership(IsCompleted, tasks);
    Seqs.FilterMembership(IsActive, tasks);
  }

  // ------------------------------------------------------------------ toggle

  /** The body of the update the checkbox sends: the opposite of the completion flag the card shows. */
  datatype ToggleUpdate = ToggleUpdate(completed: bool)

  function TogglePayload(completed: bool): (u: ToggleUpdate)
    ensures u.completed != completed
  {
    ToggleUpdate(!completed)
  }

  /** The stored task once the server applies the update, assumed to change only the completion flag (the update handler is not modelled). */
  function ApplyToggle(t: Task, u: ToggleUpdate): (r: Task)
    ensures r.completed == u.completed
    ensures r.(completed := t.completed) == t
  {
    t.(completed := u.completed)
  }

  /**
   * Toggling moves a task between the `active` and `completed` views, and
   * toggling the refreshed task once more gives the original task back.
   */
  lemma ToggleSwitchesView(t: Task)
    ensures var t' := ApplyToggle(t, TogglePayload(t.completed));
      (IsActive(t) <==> IsCompleted(t')) && (IsCompleted(t) <==> IsActive(t'))
    ensures var t' := ApplyToggle(t, TogglePayload(t.completed));
      ApplyToggle(t', TogglePayload(t'.completed)) == t
  {
  }
}
