/** The in-memory task-list store of the single screen: the ordered tasks, the
    draft title typed into the text field, and the counter that stands in for
    fresh identifiers. Every operation is a pure transition from one store to
    the next. */
module TaskStore {
  import opened Wrappers
  import opened Tasks
  import Offsets

  /** The screen's state. `nextId` is the next identifier the counter hands
      out; it replaces the random UUID each new task draws. */
  datatype Store = Store(tasks: seq<Task>, draft: string, nextId: TaskId)

  /** Every identifier in the list was handed out before `nextId`. */
  predicate IdsBelow(tasks: seq<Task>, nextId: TaskId)
  {
    forall i :: 0 <= i < |tasks| ==> tasks[i].id < nextId
  }

  /** Every title in the list is non-empty. */
  predicate TitlesNonEmpty(tasks: seq<Task>)
  {
    forall i :: 0 <= i < |tasks| ==> tasks[i].title != ""
  }

  /** The invariant every state the screen can reach keeps: identifiers are
      unique and fresh with respect to the counter, and no title is empty. */
  predicate Valid(s: Store)
  {
    && UniqueIds(s.tasks)
    && IdsBelow(s.tasks, s.nextId)
    && TitlesNonEmpty(s.tasks)
  }

  /** The screen as it opens: no tasks, an empty text field. */
  function Init(): (s: Store)
    ensures s.tasks == [] && s.draft == ""
    ensures Valid(s)
  {
    Store([], "", 0)
  }

  /** The add button is enabled exactly when the draft is non-empty. The draft
      is not trimmed: a draft of spaces enables it. */
  predicate AddEnabled(s: Store)
  {
    s.draft != ""
  }

  /** `addTask`: append a new, not yet completed task titled with the draft,
      under a fresh identifier, then clear the draft. It does not look at the
      draft itself; the disabled button is what keeps empty titles out. */
  function AddTask(s: Store): (r: Store)
    ensures |r.tasks| == |s.tasks| + 1
    ensures r.tasks[..|s.tasks|] == s.tasks
    ensures r.tasks[|s.tasks|].title == s.draft
    ensures !r.tasks[|s.tasks|].isCompleted
    ensures IdsBelow(s.tasks, s.nextId) ==>
      forall i :: 0 <= i < |s.tasks| ==> s.tasks[i].id != r.tasks[|s.tasks|].id
    ensures r.draft == ""
  {
    Store(s.tasks + [Task(s.nextId, s.draft, false)], "", s.nextId + 1)
  }

  /** A press on the add button: it reaches `addTask` only while enabled, and
      otherwise nothing happens. */
  function Submit(s: Store): (r: Store)
    ensures AddEnabled(s) ==> r == AddTask(s)
    ensures r != s <==> s.draft != ""
  {
    if AddEnabled(s) then AddTask(s) else s
  }

  /** The raw `addTask` keeps identifiers unique and fresh, whatever the draft. */
  lemma AddTaskKeepsIdsFresh(s: Store)
    requires UniqueIds(s.tasks) && IdsBelow(s.tasks, s.nextId)
    ensures UniqueIds(AddTask(s).tasks)
    ensures IdsBelow(AddTask(s).tasks, AddTask(s).nextId)
  {

  }

  /** A press on the add button keeps the store invariant. */
  lemma SubmitKeepsValid(s: Store)
    requires Valid(s)
    ensures Valid(Submit(s))
  {

  }

  /** `firstIndex(where:)` on the identifier: the first position carrying
      `id`, or nothing when no task carries it. */
  function FirstIndex(ts: seq<Task>, id: TaskId): (r: Option<nat>)
    ensures r.Some? ==> FirstWithId(ts, id, r.value)
    ensures r.None? <==> forall j :: 0 <= j < |ts| ==> ts[j].id != id
  {
    if |ts| == 0 then None
    else if ts[0].id == id then Some(0)
    else match FirstIndex(ts[1..], id)
      case None => None
      case Some(i) => Some(i + 1)
  }

  /** The row callback: replace the first task whose identifier matches the
      updated task; leave the list alone when none does. */
  function UpdateById(ts: seq<Task>, u: Task): (r: seq<Task>)
    ensures |r| == |ts|
    ensures forall j :: 0 <= j < |ts| ==> r[j] == if FirstWithId(ts, u.id, j) then u else ts[j]
    ensures Ids(r) == Ids(ts)
    ensures (forall j :: 0 <= j < |ts| ==> ts[j].id != u.id) ==> r == ts
  {
    match FirstIndex(ts, u.id)
    case None => ts
    case Some(i) =>
      var r := ts[i := u];
      assert Ids(r) == Ids(ts);
      r
  }

  /** The row button of task `t`: hand the list a copy of `t` with its
      completion flag flipped. When `t` is in a list with unique identifiers,
      exactly its position changes, to the flipped copy. */
  function ToggleTask(s: Store, t: Task): (r: Store)
    ensures r.draft == s.draft && r.nextId == s.nextId
    ensures |r.tasks| == |s.tasks|
    ensures Ids(r.tasks) == Ids(s.tasks)
    ensures UniqueIds(s.tasks) ==>
      forall i :: 0 <= i < |s.tasks| && s.tasks[i] == t ==> r.tasks == s.tasks[i := Toggled(t)]
  {
    s.(tasks := UpdateById(s.tasks, Toggled(t)))
  }

  /** Toggling a task and then toggling the row it has become gives back the
      store it started from. */
  lemma ToggleTwice(s: Store, i: nat)
    requires UniqueIds(s.tasks)
    requires i < |s.tasks|
    ensures ToggleTask(ToggleTask(s, s.tasks[i]), Toggled(s.tasks[i])) == s
  {

  }

  /** The row button keeps the store invariant. */
  lemma ToggleKeepsValid(s: Store, i: nat)
    requires Valid(s)
    requires i < |s.tasks|
    ensures Valid(ToggleTask(s, s.tasks[i]))
  {

  }

  /** `deleteTasks`: remove the tasks at the swiped offsets. Offsets past the
      end trap, so every offset must name a row. The survivors keep their
      relative order; the draft and the counter are untouched. */
  function DeleteTasks(s: Store, offsets: set<nat>): (r: Store)
    requires Offsets.InRange(offsets, |s.tasks|)
    ensures r.draft == s.draft && r.nextId == s.nextId
    ensures |r.tasks| == |s.tasks| - |offsets|
    ensures |r.tasks| == |Offsets.Survivors(offsets, |s.tasks|)|
    ensures forall j :: 0 <= j < |r.tasks| ==>
      r.tasks[j] == s.tasks[Offsets.Survivors(offsets, |s.tasks|)[j]]
  {
    s.(tasks := Offsets.RemoveAtOffsets(s.tasks, offsets))
  }

  /** Deleting keeps the store invariant: survivors come from distinct,
      increasing positions of a valid list. */
  lemma DeleteKeepsValid(s: Store, offsets: set<nat>)
    requires Valid(s)
    requires Offsets.InRange(offsets, |s.tasks|)
    ensures Valid(DeleteTasks(s, offsets))
  {

  }
}
