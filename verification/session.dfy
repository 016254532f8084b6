/** A session at the screen: the user's actions, applied one after another to
    the store. Everything reachable from the opening screen keeps the store
    invariant, and the walkthroughs of the application's behaviour hold. */
module Session {
  import opened Wrappers
  import opened Tasks
  import opened TaskStore
  import Offsets
  import opened Screen

  /** What the user can do: type into the text field (the binding replaces the
      draft), press the add button, press the button of a row, or swipe away
      rows at a set of offsets. */
  datatype Action =
    | Edit(text: string)
    | PressAdd
    | PressRow(row: nat)
    | Swipe(offsets: set<nat>)

  /** Whether the screen can issue the action in this state: a row button
      exists only for a row on screen, and a swipe names only rows on screen. */
  predicate Issuable(s: Store, a: Action)
  {
    match a
    case PressRow(k) => k < |s.tasks|
    case Swipe(offsets) => Offsets.InRange(offsets, |s.tasks|)
    case _ => true
  }

  /** The store after one action. */
  function Step(s: Store, a: Action): (r: Store)
    requires Issuable(s, a)
    ensures a.Edit? ==> r.tasks == s.tasks && r.draft == a.text && r.nextId == s.nextId
    ensures a.PressAdd? ==> (r != s <==> s.draft != "")
    ensures a.PressAdd? && s.draft != "" ==>
      && |r.tasks| == |s.tasks| + 1
      && r.tasks[..|s.tasks|] == s.tasks
      && r.tasks[|s.tasks|].title == s.draft
      && !r.tasks[|s.tasks|].isCompleted
      && r.draft == ""
    ensures a.PressRow? ==> |r.tasks| == |s.tasks| && Ids(r.tasks) == Ids(s.tasks)
    ensures a.PressRow? && UniqueIds(s.tasks) ==>
      r.tasks == s.tasks[a.row := Toggled(s.tasks[a.row])]
    ensures a.Swipe? ==> |r.tasks| == |s.tasks| - |a.offsets|
    ensures a.PressRow? || a.Swipe? ==> r.draft == s.draft
  {
    match a
    case Edit(text) => s.(draft := text)
    case PressAdd => Submit(s)
    case PressRow(k) => ToggleTask(s, s.tasks[k])
    case Swipe(offsets) => DeleteTasks(s, offsets)
  }

  /** Every action of the sequence can be issued in the state it meets. */
  predicate IssuableRun(s: Store, acts: seq<Action>)
    decreases |acts|
  {
    |acts| == 0 || (Issuable(s, acts[0]) && IssuableRun(Step(s, acts[0]), acts[1..]))
  }

  /** The store after a sequence of actions. */
  function Run(s: Store, acts: seq<Action>): Store
    requires IssuableRun(s, acts)
    decreases |acts|
  {
    if |acts| == 0 then s else Run(Step(s, acts[0]), acts[1..])
  }

  /** Every action keeps the store invariant. */
  lemma StepKeepsValid(s: Store, a: Action)
    requires Valid(s)
    requires Issuable(s, a)
    ensures Valid(Step(s, a))
  {
    match a
    case Edit(_) =>
    case PressAdd => SubmitKeepsValid(s);
    case PressRow(k) => ToggleKeepsValid(s, k);
    case Swipe(offsets) => DeleteKeepsValid(s, offsets);
  }

  /** Every sequence of actions keeps the store invariant. */
  lemma {:induction false} RunKeepsValid(s: Store, acts: seq<Action>)
    requires Valid(s)
    requires IssuableRun(s, acts)
    ensures Valid(Run(s, acts))
    decreases |acts|
  {
    if |acts| > 0 {
      StepKeepsValid(s, acts[0]);
      RunKeepsValid(Step(s, acts[0]), acts[1..]);
    }
  }

  /** In every state reachable from the opening screen the identifiers are
      unique, no title is empty, and the summary panel (when shown) counts the
      list and its completed tasks. */
  lemma Reachable(acts: seq<Action>)
    requires IssuableRun(Init(), acts)
    ensures UniqueIds(Run(Init(), acts).tasks)
    ensures TitlesNonEmpty(Run(Init(), acts).tasks)
    ensures var s := Run(Init(), acts);
      Render(s).summary == if |s.tasks| == 0 then None
        else Some(Counts(|s.tasks|, |CompletedPositions(s.tasks)|))
  {
    RunKeepsValid(Init(), acts);
  }

  /** The titles of a list of tasks, in order. */
  function Titles(ts: seq<Task>): (r: seq<string>)
    ensures |r| == |ts|
    ensures forall i :: 0 <= i < |ts| ==> r[i] == ts[i].title
  {
    if |ts| == 0 then [] else Titles(ts[..|ts| - 1]) + [ts[|ts| - 1].title]
  }

  /** Typing each title and pressing the add button after each. */
  function AddEach(titles: seq<string>): (acts: seq<Action>)
    ensures |acts| == 2 * |titles|
  {
    if |titles| == 0 then [] else [Edit(titles[0]), PressAdd] + AddEach(titles[1..])
  }

  /** Typing each title in turn and adding it, straight on the store. */
  function AddedEach(s: Store, titles: seq<string>): (r: Store)
    ensures |r.tasks| == |s.tasks| + |titles|
    decreases |titles|
  {
    if |titles| == 0 then s else AddedEach(AddTask(s.(draft := titles[0])), titles[1..])
  }

  /** Typing a non-empty title and pressing the add button adds it. */
  lemma {:induction false} AddOneRuns(s: Store, title: string, more: seq<Action>)
    requires title != ""
    requires IssuableRun(AddTask(s.(draft := title)), more)
    ensures IssuableRun(s, [Edit(title), PressAdd] + more)
    ensures Run(s, [Edit(title), PressAdd] + more) == Run(AddTask(s.(draft := title)), more)
  {

  }

  /** The session that types and adds each title is `AddedEach`. */
  lemma {:induction false} AddEachRuns(s: Store, titles: seq<string>)
    requires forall i :: 0 <= i < |titles| ==> titles[i] != ""
    ensures IssuableRun(s, AddEach(titles))
    ensures Run(s, AddEach(titles)) == AddedEach(s, titles)
    decreases |titles|
  {
    if |titles| > 0 {
      var s2 := AddTask(s.(draft := titles[0]));
      AddEachRuns(s2, titles[1..]);
      AddOneRuns(s, titles[0], AddEach(titles[1..]));
    }
  }

  /** Adding titles one after another appends them to the titles in call
      order. */
  lemma {:induction false} AddedEachTitles(s: Store, titles: seq<string>)
    ensures Titles(AddedEach(s, titles).tasks) == Titles(s.tasks) + titles
    decreases |titles|
  {
    if |titles| > 0 {
      var s2 := AddTask(s.(draft := titles[0]));
      AddedEachTitles(s2, titles[1..]);
      assert AddedEach(s, titles) == AddedEach(s2, titles[1..]);
      assert Titles(s2.tasks) == Titles(s.tasks) + [titles[0]];
      assert titles == [titles[0]] + titles[1..];
    }
  }

  /** Adding titles one after another keeps the old tasks in front, adds only
      pending tasks, and leaves the draft empty. */
  lemma {:induction false} AddedEachAppends(s: Store, titles: seq<string>)
    ensures AddedEach(s, titles).tasks[..|s.tasks|] == s.tasks
    ensures forall i :: |s.tasks| <= i < |AddedEach(s, titles).tasks| ==>
      !AddedEach(s, titles).tasks[i].isCompleted
    ensures |titles| > 0 ==> AddedEach(s, titles).draft == ""
    decreases |titles|
  {
    if |titles| > 0 {
      var s2 := AddTask(s.(draft := titles[0]));
      AddedEachAppends(s2, titles[1..]);
      var r := AddedEach(s2, titles[1..]);
      assert r == AddedEach(s, titles);
      assert |s2.tasks| == |s.tasks| + 1;
      assert r.tasks[..|s.tasks|] == s2.tasks[..|s.tasks|];
      forall i | |s.tasks| <= i < |r.tasks|
        ensures !r.tasks[i].isCompleted
      {
        if i == |s.tasks| {
          assert r.tasks[i] == s2.tasks[i];
        }
      }
    }
  }

  /** Adding non-empty titles through the screen, one after another, appends
      them in call order as pending tasks and leaves the draft empty. */
  lemma AddEachAppends(s: Store, titles: seq<string>)
    requires forall i :: 0 <= i < |titles| ==> titles[i] != ""
    ensures IssuableRun(s, AddEach(titles))
    ensures Titles(Run(s, AddEach(titles)).tasks) == Titles(s.tasks) + titles
    ensures Run(s, AddEach(titles)).tasks[..|s.tasks|] == s.tasks
    ensures forall i :: |s.tasks| <= i < |Run(s, AddEach(titles)).tasks| ==>
      !Run(s, AddEach(titles)).tasks[i].isCompleted
    ensures |titles| > 0 ==> Run(s, AddEach(titles)).draft == ""
  {
    AddEachRuns(s, titles);
    AddedEachTitles(s, titles);
    AddedEachAppends(s, titles);
  }

  /** Adding "Buy milk" to the opening screen gives one pending task; the
      panel counts one task, none completed. */
  lemma ScenarioAddOne()
    ensures var s := Run(Init(), [Edit("Buy milk"), PressAdd]);
      && s.tasks == [Task(0, "Buy milk", false)]
      && Render(s).summary == Some(Counts(1, 0))
  {

  }

  /** Adding "Buy milk" and "Call mom" and pressing the first row: two tasks,
      one completed, and it is the first. */
  lemma ScenarioAddTwoToggleFirst()
    ensures IssuableRun(Init(), AddEach(["Buy milk", "Call mom"]) + [PressRow(0)])
    ensures var s := Run(Init(), AddEach(["Buy milk", "Call mom"]) + [PressRow(0)]);
      && Render(s).summary == Some(Counts(2, 1))
      && s.tasks[0].isCompleted && !s.tasks[1].isCompleted
  {
    var r := Store([Task(0, "Buy milk", false), Task(1, "Call mom", false)], "", 2);
    ScenarioTwoAdded();
    RunAppend(Init(), AddEach(["Buy milk", "Call mom"]), [PressRow(0)]);
    var done := Task(0, "Buy milk", true);
    var s := Store([done, Task(1, "Call mom", false)], "", 2);
    assert Run(r, [PressRow(0)]) == ToggleTask(r, r.tasks[0]);
    assert ToggleTask(r, r.tasks[0]).tasks == r.tasks[0 := done];
    assert s.tasks[..1] == [done];
    assert CompletedTasks(s.tasks) == [done];
  }

  /** Typing and adding "Buy milk" and then "Call mom" on the opening screen
      gives the two pending tasks under identifiers 0 and 1. */
  lemma ScenarioTwoAdded()
    ensures IssuableRun(Init(), AddEach(["Buy milk", "Call mom"]))
    ensures Run(Init(), AddEach(["Buy milk", "Call mom"])) ==
      Store([Task(0, "Buy milk", false), Task(1, "Call mom", false)], "", 2)
  {

  }

  /** Running two sequences one after the other is running their concatenation. */
  lemma {:induction false} RunAppend(s: Store, acts: seq<Action>, more: seq<Action>)
    requires IssuableRun(s, acts)
    requires IssuableRun(Run(s, acts), more)
    ensures IssuableRun(s, acts + more)
    ensures Run(s, acts + more) == Run(Run(s, acts), more)
    decreases |acts|
  {
    if |acts| > 0 {
      assert (acts + more)[0] == acts[0];
      assert (acts + more)[1..] == acts[1..] + more;
      RunAppend(Step(s, acts[0]), acts[1..], more);
    } else {
      assert acts + more == more;
    }
  }

  /** The opening screen shows the placeholder and no summary panel. */
  lemma ScenarioEmpty()
    ensures Render(Init()).content == EmptyState
    ensures Render(Init()).summary == None
  {
  }

  /** Adding "X" and swiping it away brings back the placeholder. */
  lemma ScenarioAddThenDelete()
    ensures IssuableRun(Init(), [Edit("X"), PressAdd, Swipe({0})])
    ensures var s := Run(Init(), [Edit("X"), PressAdd, Swipe({0})]);
      && s.tasks == []
      && Render(s).content == EmptyState
      && Render(s).summary == None
  {

  }

  /** A draft of spaces is accepted and stored as it is: nothing trims it. */
  lemma ScenarioBlankTitleKept()
    ensures Run(Init(), [Edit(" "), PressAdd]).tasks == [Task(0, " ", false)]
  {

  }
}
