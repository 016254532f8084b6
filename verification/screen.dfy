/** What the screen derives from the store: the add button's state, the summary
    panel with its two counts, and the choice between the empty-state
    placeholder and the list of rows. */
module Screen {
  import opened Wrappers
  import opened Tasks
  import opened TaskStore

  /** The completed tasks, in list order: the `filter` behind the completed
      count. It holds one task for each completed position. */
  function CompletedTasks(ts: seq<Task>): (r: seq<Task>)
    ensures |r| == |CompletedPositions(ts)|
    ensures |r| <= |ts|
  {
    if |ts| == 0 then
      assert CompletedPositions(ts) == {};
      []
    else
      var last := ts[|ts| - 1];
      PositionsExtend(ts);
      CompletedTasks(ts[..|ts| - 1]) + (if last.isCompleted then [last] else [])
  }

  /** A task is in the filter exactly when it is a completed task of the list. */
  lemma {:induction false} CompletedTasksMembers(ts: seq<Task>)
    ensures forall t :: t in CompletedTasks(ts) <==> t in ts && t.isCompleted
  {
    if |ts| > 0 {
      var p := ts[..|ts| - 1];
      CompletedTasksMembers(p);
      assert ts == p + [ts[|ts| - 1]];
    }
  }

  /** The number shown under the "completed" caption. */
  function CompletedCount(ts: seq<Task>): nat
  {
    |CompletedTasks(ts)|
  }

  /** The positions whose task is completed: an independent description of
      what the completed count counts. */
  function CompletedPositions(ts: seq<Task>): set<nat>
  {
    set i: nat | i < |ts| && ts[i].isCompleted
  }

  /** The completed count is the number of completed positions, and is at most
      the total. */
  lemma CompletedCountIsPositions(ts: seq<Task>)
    ensures CompletedCount(ts) == |CompletedPositions(ts)|
    ensures CompletedCount(ts) <= |ts|
  {

  }

  /** The completed positions of a list are those of its prefix without the
      last task, plus the last position when that task is completed. */
  lemma PositionsExtend(ts: seq<Task>)
    requires |ts| > 0
    ensures CompletedPositions(ts) == CompletedPositions(ts[..|ts| - 1]) +
      (if ts[|ts| - 1].isCompleted then {|ts| - 1} else {})
  {

  }

  /** 1 for a completed task, 0 otherwise. */
  function Done(t: Task): nat
  {
    if t.isCompleted then 1 else 0
  }

  /** Replacing the task at one position moves the completed count by the
      difference of the two tasks' flags. */
  lemma CompletedCountReplace(ts: seq<Task>, i: nat, u: Task)
    requires i < |ts|
    ensures CompletedCount(ts[i := u]) + Done(ts[i]) == CompletedCount(ts) + Done(u)
  {
    var others := CompletedPositions(ts) - {i};
    PositionsReplace(ts, i, u);
    assert CompletedPositions(ts) == others + (if ts[i].isCompleted then {i} else {});
  }

  /** Replacing the task at position `i` changes only whether `i` is a
      completed position. */
  lemma PositionsReplace(ts: seq<Task>, i: nat, u: Task)
    requires i < |ts|
    ensures CompletedPositions(ts[i := u]) ==
      (CompletedPositions(ts) - {i}) + (if u.isCompleted then {i} else {})
  {
  }

  /** Pressing a row's button changes the completed count by exactly one, up
      when the task was pending and down when it was done, and leaves the
      total alone. */
  lemma ToggleMovesCompletedByOne(s: Store, i: nat)
    requires UniqueIds(s.tasks)
    requires i < |s.tasks|
    ensures |ToggleTask(s, s.tasks[i]).tasks| == |s.tasks|
    ensures CompletedCount(ToggleTask(s, s.tasks[i]).tasks) ==
      if s.tasks[i].isCompleted then CompletedCount(s.tasks) - 1 else CompletedCount(s.tasks) + 1
  {
    var t := s.tasks[i];
    assert ToggleTask(s, t).tasks == s.tasks[i := Toggled(t)];
    CompletedCountReplace(s.tasks, i, Toggled(t));
  }

  /** The two numbers of the summary panel. */
  datatype Counts = Counts(total: nat, completed: nat)

  /** The area below the input: the placeholder, or one row per task in list order. */
  datatype Content = EmptyState | TaskList(rows: seq<Task>)

  /** Everything about the screen that depends on the store. */
  datatype View = View(addEnabled: bool, summary: Option<Counts>, content: Content)

  /** The screen for a store. The summary panel and the placeholder sit under
      two separate tests of the same emptiness, so exactly one of them shows;
      the counts are the list length and the number of completed tasks. */
  function Render(s: Store): (v: View)
    ensures v.addEnabled <==> s.draft != ""
    ensures v.summary.Some? <==> |s.tasks| > 0
    ensures v.content.EmptyState? <==> |s.tasks| == 0
    ensures v.summary.Some? ==> v.summary.value.total == |s.tasks|
    ensures v.summary.Some? ==> v.summary.value.completed == |CompletedPositions(s.tasks)|
    ensures v.summary.Some? ==> v.summary.value.completed <= v.summary.value.total
    ensures v.content.TaskList? ==> v.content.rows == s.tasks
  {
    CompletedCountIsPositions(s.tasks);
    var summary := if |s.tasks| > 0 then Some(Counts(|s.tasks|, CompletedCount(s.tasks))) else None;
    var content := if |s.tasks| == 0 then EmptyState else TaskList(s.tasks);
    View(AddEnabled(s), summary, content)
  }
}
