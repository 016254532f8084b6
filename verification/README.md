# ToDo-List task store in Dafny

The ToDo-List application is a single SwiftUI screen. Users type a title and
add it as a task, press a row's button to mark the task complete (or pending
again), and swipe rows away. A summary panel shows the total and completed
counts. All of the behaviour lives in the in-memory store that `ContentView`
keeps in its `@State` properties. This project models that store as pure
transitions over an immutable state `Store(tasks, draft, nextId)`:

- `Tasks`: the `Task` record. It also holds the copy-and-flip that a row's
  button performs, and the uniqueness predicate on identifiers.
- `Offsets`: `remove(atOffsets:)` over an ordered collection. It has a
  reference description of the survivors and a cardinality lemma.
- `TaskStore`: the store and its invariant `Valid`. It covers `addTask`, the
  add button's guard, the update-by-id row callback, the toggle and
  `deleteTasks`.
- `Screen`: what the view derives from the store. That is the add button's
  state, the summary counts, and the choice between the placeholder and the
  list.
- `Session`: sequences of user actions applied from the opening screen. It
  proves the reachable-state invariants and the walkthroughs of the
  application's behaviour.

The random `UUID()` a task draws is replaced by a counter `nextId`. The
invariant `Valid` says three things: identifiers are unique, every identifier
is below the counter, and no title is empty. Every user action preserves it.

The title is not trimmed. The code tests `newTaskTitle.isEmpty` and stores
the draft verbatim. The model follows the code: a draft of spaces enables the button and is stored as typed
(`Session.ScenarioBlankTitleKept`).

## Model

| member | source | states |
|---|---|---|
| Tasks.Toggled | ToDoList/ContentView.swift:129-130 | the row's copy keeps the task's id and title and has the opposite completion flag |
| Tasks.ToggledTwice | ToDoList/ContentView.swift:129-130 | flipping twice gives back the original task, and a flip always changes the task |
| Offsets.Survivors | ToDoList/ContentView.swift:116-118 | the surviving positions are strictly ascending; none is removed and each is in range; every position not removed is among them |
| Offsets.SurvivorsCount | ToDoList/ContentView.swift:116-118 | the number of survivors plus the number of removed offsets below n is n |
| Offsets.RemoveAtOffsets | ToDoList/ContentView.swift:116-118 | removal drops exactly the number of offsets; the j-th survivor is the element at the j-th non-removed position, so relative order is kept |
| Offsets.RemovedExactly | ToDoList/ContentView.swift:116-118 | every element left was at a position not removed, and every element at a position not removed is still present |
| Offsets.RemoveSingle | ToDoList/ContentView.swift:100-118 | swiping one row away splices exactly that element out, so the length drops by one |
| TaskStore.Init | ToDoList/ContentView.swift:4-5 | the screen opens with no tasks and an empty draft, and that state satisfies the store invariant |
| TaskStore.AddTask | ToDoList/ContentView.swift:110-114 | adding makes the list one longer with the old tasks as an unchanged prefix; the new last task has the draft as its title, is not completed and has an id no older task has; the draft is cleared |
| TaskStore.Submit | ToDoList/ContentView.swift:17-23 | pressing add changes the store if and only if the draft is non-empty; when enabled, the press performs addTask |
| TaskStore.AddTaskKeepsIdsFresh | ToDoList/ContentView.swift:110-112 | appending under the counter's identifier keeps ids unique and below the advanced counter |
| TaskStore.SubmitKeepsValid | ToDoList/ContentView.swift:110-114 | pressing add preserves the invariant (unique, fresh ids and non-empty titles) |
| TaskStore.FirstIndex | ToDoList/ContentView.swift:95 | the result is the first position carrying the id; there is no result exactly when no task carries it |
| TaskStore.UpdateById | ToDoList/ContentView.swift:94-97 | only the first position whose id matches becomes the updated task; every other position is unchanged; the length and every position's id are preserved; no match means no change |
| TaskStore.ToggleTask | ToDoList/ContentView.swift:127-131 | the draft, the counter, the length and all ids are preserved; for a task in a list with unique ids, exactly its position changes, to the flipped copy |
| TaskStore.ToggleTwice | ToDoList/ContentView.swift:127-131 | pressing a row and then the row it has become restores the original store |
| TaskStore.ToggleKeepsValid | ToDoList/ContentView.swift:94-97 | pressing a row preserves the store invariant |
| TaskStore.DeleteTasks | ToDoList/ContentView.swift:116-118 | deleting leaves the draft and counter alone; the length drops by the number of offsets; survivors appear in their original relative order |
| TaskStore.DeleteKeepsValid | ToDoList/ContentView.swift:116-118 | deleting preserves unique, fresh ids and non-empty titles |
| Screen.CompletedTasks | ToDoList/ContentView.swift:47 | the filter holds one task per completed position, so its length is the number of completed positions and at most the total |
| Screen.CompletedTasksMembers | ToDoList/ContentView.swift:47 | a task is in the filter iff it is a task of the list with its completion flag set |
| Screen.CompletedCountIsPositions | ToDoList/ContentView.swift:47 | the completed count equals the number of positions holding a completed task, and is at most the total |
| Screen.CompletedCountReplace | ToDoList/ContentView.swift:96 | replacing one task moves the completed count by the difference of the old and new flags |
| Screen.ToggleMovesCompletedByOne | ToDoList/ContentView.swift:127-131 | pressing a row changes the completed count by exactly +1 (pending task) or -1 (completed task) and never changes the total |
| Screen.Render | ToDoList/ContentView.swift:23-93 | add is enabled iff the draft is non-empty; the summary is shown iff the list is non-empty and the placeholder iff it is empty; total is the length; completed is the number of completed positions and at most the total; the rows are the tasks in order |
| Session.Step | ToDoList/ContentView.swift:12-17 | typing replaces the draft and leaves the tasks and the counter; pressing add changes the store iff the draft is non-empty, and then appends a pending task titled with the draft behind the unchanged old tasks and clears the draft; pressing a row keeps the length and the ids, and with unique ids it replaces exactly that row by its flipped copy; a swipe shortens the list by the number of offsets; row presses and swipes leave the draft |
| Session.StepKeepsValid | ToDoList/ContentView.swift:94-118 | every user action preserves the store invariant |
| Session.RunKeepsValid | ToDoList/ContentView.swift:94-118 | every sequence of user actions preserves the store invariant |
| Session.Reachable | ToDoList/ContentView.swift:29-47 | every reachable state has unique ids and non-empty titles; its summary is absent when empty, and otherwise shows the length and the completed-position count |
| Session.AddEachRuns | ToDoList/ContentView.swift:12-23 | typing and adding non-empty titles one by one can always be issued, and equals adding them directly to the store |
| Session.AddedEachAppends | ToDoList/ContentView.swift:110-114 | adding titles one by one appends them in call order as pending tasks, keeps the old tasks in front and leaves the draft empty |
| Session.AddEachAppends | ToDoList/ContentView.swift:110-114 | after adding N non-empty titles through the screen, the titles are the old ones followed by the N titles in call order, all pending, and the draft is empty |
| Session.ScenarioAddOne | ToDoList/ContentView.swift:110-114 | adding "Buy milk" to the opening screen gives one pending task; the counts are 1 and 0 |
| Session.ScenarioAddTwoToggleFirst | ToDoList/ContentView.swift:127-131 | adding two tasks and pressing the first gives counts 2 and 1; only the first task is completed |
| Session.ScenarioEmpty | ToDoList/ContentView.swift:72 | the opening screen shows the placeholder and no summary |
| Session.ScenarioAddThenDelete | ToDoList/ContentView.swift:116-118 | adding "X" and swiping it away empties the list and brings back the placeholder |
| Session.ScenarioBlankTitleKept | ToDoList/ContentView.swift:23 | a draft of a single space is accepted and stored untrimmed |

## Left out

- Layout and styling: fonts, shadows, gradients, scale effects, animations, strikethrough, colours, the "done" badge, the navigation title and the preview. They are presentational only. The row content is modelled as the task itself.
- The localized captions, placeholder and heading texts. They are cosmetic.
- `UUID()` randomness. It is replaced by a counter, because only uniqueness of identifiers matters to the behaviour.
- Out-of-range offsets to `remove(atOffsets:)`. They trap, so `DeleteTasks` requires every offset to name a row rather than modelling the trap.
- The reactive re-render and the `@State` binding machinery. Each action is a transition from one store to the next, and `Render` is applied to the result.
- Session.Step: a press on a row is modelled with the task currently at that row. It does not model a stale row value captured before a re-render.
