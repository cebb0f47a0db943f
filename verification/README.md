# Task Manager list model

A Dafny model of the state and commands of the single-page Task Manager
component (`App` in `src/App.tsx`). The component keeps an ordered list of
tasks, each with an `id`, a `text` and a `completed` flag. It also keeps the
draft text typed into the input field. Three commands change the list:

- **add** trims the draft. A blank draft is ignored. Otherwise the trimmed
  text is appended as an open task, and the draft is cleared.
- **toggle** flips `completed` on every task with a given id.
- **delete** removes every task with a given id.

The model has two modules:

- `Text` (`text.dfy`) models `String.prototype.trim`. `IsWhitespace` is the
  set of ECMAScript WhiteSpace and LineTerminator code points, and `Trim`
  strips them from both ends. Lemmas show that what `Trim` keeps is the slice
  between a white-space prefix and a white-space suffix, and that trimming a
  padded trimmed string gives it back. Together these two facts pin `Trim`
  down.
- `TaskBoard` (`app.dfy`) holds the `Task` datatype and the list operations
  as pure functions over `seq<Task>`: `Added`, `Toggled` and `Deleted`.
  Lemmas give each operation's properties. The component state is the class
  `Board`, with fields `tasks` and `draft` that its methods replace, just as
  `setTasks` and `setNewTask` do. The methods are specified by the pure
  functions.

The component's own code guarantees one invariant: every task text is
non-empty and trimmed. `Board.Valid` states it, and every command keeps it.
Ids are timestamps, so two tasks can share one. Distinct ids are therefore
not part of `Valid`. Instead, each command states that it keeps ids distinct
when they were distinct before. For add, that also needs a fresh id.

## Model

| member | source | states |
|---|---|---|
| Text.Trim | src/App.tsx:16-17 | The trimmed draft has no white space at either end, and it is empty exactly when the draft is all white space (the `if (newTask.trim())` test). |
| Text.TrimIsSlice | src/App.tsx:17 | The trimmed text is a contiguous slice of the draft, and everything cut off on either side is white space. |
| Text.TrimPadded | src/App.tsx:17 | A trimmed string padded with any white space on both sides trims back to itself. |
| Text.TrimTrimmed | src/App.tsx:17 | Trimming a string with no white space at its ends leaves it unchanged. |
| Text.TrimIdempotent | src/App.tsx:17 | Trimming twice is the same as trimming once. |
| TaskBoard.Added | src/App.tsx:14-20 | A blank draft leaves the list unchanged. Otherwise the list grows by one: the old tasks stay in front, unchanged, and the last task has the given id, the trimmed draft as its text, and is not completed. |
| TaskBoard.AddedNonBlank | src/App.tsx:17 | A non-blank draft gives exactly `tasks + [Task(id, Trim(draft), false)]`. |
| TaskBoard.AddedTextsValid | src/App.tsx:16-17 | Adding keeps every task text non-empty and trimmed. |
| TaskBoard.AddedDistinctIds | src/App.tsx:17 | Adding with an id that no task already has keeps the ids pairwise distinct. |
| TaskBoard.AddedAllInOrder | src/App.tsx:14-20 | Submitting a series of drafts appends, after the old tasks, one open task per non-blank draft, in submission order. Blank drafts contribute nothing. |
| TaskBoard.Toggled | src/App.tsx:22-26 | Length, ids and texts are kept. A task's `completed` flips exactly when its id matches. Tasks with other ids are unchanged. |
| TaskBoard.ToggledTwice | src/App.tsx:22-26 | Toggling the same id twice gives back the original list. |
| TaskBoard.ToggledAbsent | src/App.tsx:23-24 | Toggling an id that no task has leaves the list unchanged. |
| TaskBoard.ToggledInvariants | src/App.tsx:23-24 | Toggling keeps every text valid and keeps distinct ids distinct. |
| TaskBoard.Deleted | src/App.tsx:28-30 | The result is no longer than the list, and no task in it has the deleted id. |
| TaskBoard.DeletedMembers | src/App.tsx:29 | A task is in the result exactly when it was in the list and its id differs from the deleted one. |
| TaskBoard.DeletedIsSubsequence | src/App.tsx:29 | The remaining tasks keep their original relative order. |
| TaskBoard.DeletedAppend | src/App.tsx:29 | Deleting from a concatenation is the concatenation of the deletions (a filter). |
| TaskBoard.DeletedAbsent | src/App.tsx:29 | Deleting an id that no task has leaves the list unchanged. |
| TaskBoard.DeletedAt | src/App.tsx:28-30 | With distinct ids, deleting the id of the task at position `k` removes exactly that task. The list gets one shorter, and all other tasks stay in order. |
| TaskBoard.DeletedTextsValid | src/App.tsx:29 | Deleting keeps every task text non-empty and trimmed. |
| TaskBoard.DeletedDistinctIds | src/App.tsx:29 | Deleting keeps the ids pairwise distinct. |
| TaskBoard.Board.constructor | src/App.tsx:11-12 | A fresh component has no tasks and an empty draft. |
| TaskBoard.Board.SetDraft | src/App.tsx:51 | Typing replaces the draft and leaves the tasks alone. |
| TaskBoard.Board.AddTask | src/App.tsx:14-20 | The new list is `Added` of the old list and draft. A blank draft is kept, and a successful add clears it. Text validity is kept, and distinct ids stay distinct when the id is fresh. |
| TaskBoard.Board.ToggleTask | src/App.tsx:22-26 | The new list is `Toggled` of the old one, and the draft is untouched. Text validity and distinct ids are kept. |
| TaskBoard.Board.DeleteTask | src/App.tsx:28-30 | The new list is `Deleted` of the old one, and the draft is untouched. Text validity and distinct ids are kept. |
| TaskBoard.AddPadded | src/App.tsx:16-17 | Submitting a valid text padded with white space to an empty list gives one open task with the bare text. |
| TaskBoard.AddTwo | src/App.tsx:14-20 | Two non-blank submissions to an empty list give two open tasks, in order, with the trimmed texts. |
| TaskBoard.ToggleFirstDeleteSecond | src/App.tsx:22-30 | On a two-task list with different ids, toggling the first and deleting the second leaves only the first, flipped. |
| TaskBoard.Scenario | src/App.tsx:11-30 | Start empty, add two tasks with different ids, toggle the first and delete the second. Only the first task is left, completed. |

## Left out

- Rendering (the JSX on lines 32-108 of `src/App.tsx`), the CSS classes, the icons, the placeholder text and the empty-list message. None of these changes state.
- `e.preventDefault()` on the form event, and React's `useState` and event wiring. Each command is a method call on `Board`, and setting the draft is `SetDraft`.
- `Date.now()`: the clock is an input here. `Board.AddTask` takes the new task's id as a parameter. Nothing stops two tasks from sharing an id, so toggle and delete act on every task with that id.
- Batched and asynchronous state updates: each command reads the state left by the previous command.
- `Text.IsWhitespace`: the Unicode space separators are the ones in the current Unicode standard. Characters outside the Basic Multilingual Plane are not treated separately, because the model's strings are sequences of code points.
