/** The task record of the to-do list, the one change a row makes to a task,
    and the identity predicates the store keeps. */
module Tasks {

  /** A task identifier. The application draws a fresh random UUID for every
      task; all that matters is that an identifier is never handed out twice,
      so here an identifier is a number taken from a counter. */
  type TaskId = nat

  /** A task: an identifier fixed at creation, an immutable title, and a
      completion flag that the row button flips. */
  datatype Task = Task(id: TaskId, title: string, isCompleted: bool)

  /** What the row button hands to the list: a copy of the task with only its
      completion flag flipped. */
  function Toggled(t: Task): (u: Task)
    ensures u.id == t.id
    ensures u.title == t.title
    ensures u.isCompleted == !t.isCompleted
  {
    t.(isCompleted := !t.isCompleted)
  }

  /** Flipping twice gives back the task the row started from. */
  lemma ToggledTwice(t: Task)
    ensures Toggled(Toggled(t)) == t
    ensures Toggled(t) != t
  {
  }

  /** The identifiers of a list of tasks, position by position. */
  function Ids(ts: seq<Task>): (ids: seq<TaskId>)
    ensures |ids| == |ts|
    ensures forall i :: 0 <= i < |ts| ==> ids[i] == ts[i].id
  {
    if |ts| == 0 then [] else Ids(ts[..|ts| - 1]) + [ts[|ts| - 1].id]
  }

  /** No two positions of the list carry the same identifier. */
  predicate UniqueIds(ts: seq<Task>)
  {
    forall i, j :: 0 <= i < j < |ts| ==> ts[i].id != ts[j].id
  }

  /** `i` is the first position of `ts` whose task carries identifier `id`. */
  predicate FirstWithId(ts: seq<Task>, id: TaskId, i: int)
  {
    && 0 <= i < |ts|
    && ts[i].id == id
    && forall k :: 0 <= k < i ==> ts[k].id != id
  }
}
