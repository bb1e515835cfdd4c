# To-do list command-line tool, modelled in Dafny

The tool keeps a list of tasks in a JSON file (`./tasks.json`). Each task
has a title, a done flag and a creation timestamp. Four commands work on
the list. `add <task>` appends a new task that is not done. `list` prints
a table with one numbered row per task. `done` shows a checkbox prompt
whose boxes start as the stored statuses, then overwrites every status
with the user's answer. `delete` shows a checkbox prompt with every box
unchecked, then keeps only the unselected tasks. A task's only identity
is its position in the list.

Every command starts by reading the whole file. The commands that change
the list end by writing the whole file back.

Files:

- `tasks.dfy` (module `Tasks`): the task record and the pure logic of the
  handlers. It defines the status overwrite of `done` (`Marked`), the
  positional filter of `delete` (`Remaining`, with `Kept` for the
  positions it keeps), the prompt entries (`DoneChoices`,
  `DeleteChoices`) and the table rows of `list` (`RowOf`). The lemmas
  state what each of these means.
- `task_list.dfy` (module `TaskLists`): class `TaskList`, the loaded array
  that `add` pushes onto and that the loop of `done` updates in place.
- `storage.dfy` (module `Storage`): the task file as an abstract state, the
  loading rule (`LoadTasks`) and class `Store`, whose `Save` overwrites
  the file.
- `commands.dfy` (module `Commands`): the four handlers as methods over a
  `Store`, the row loop of `list`, and a worked session of five commands.

Inputs from outside the program become parameters:

- the clock reading: `now`
- the prompt's answer, as the list of selected indices: `answer`. When
  the user confirms a checkbox prompt without toggling anything, the
  answer is assumed to be the values of the entries that started checked,
  in order (`CheckedValues`). This is how the prompt library behaves, and
  `DoneDefaultKeepsStatus` and `DeleteDefaultKeepsAll` rest on it.
- how the final write ends: `outcome`, a `WriteOutcome`. The write either
  succeeds, fails before the file is opened, fails after the file has been
  emptied, or fails after writing part of the text.

## Model

| member | source | states |
|---|---|---|
| Tasks.NewTask | todo.js:39-43 | the added task has the given title, is not done, and carries the given creation time |
| Tasks.MarkedIsDoneExactly | todo.js:120-122 | after `done`, the list has the same length, titles and timestamps, and task i is done iff i is in the answer; no other list has these properties |
| Tasks.MarkedIgnoresPriorStatus | todo.js:120-122 | two lists with the same titles and timestamps give the same result under `done`, whatever their previous statuses |
| Tasks.MarkedNothing | todo.js:120-122 | an empty answer marks every task not done |
| Tasks.MarkedEverything | todo.js:120-122 | an answer that contains every index marks every task done |
| Tasks.MarkedIdempotent | todo.js:120-122 | running `done` a second time with the same answer changes nothing |
| Tasks.Kept | todo.js:154-156 | the kept positions are strictly ascending, in range and unselected, and every unselected in-range position is among them |
| Tasks.RemainingIsKept | todo.js:154-156 | the k-th task left after `delete` is the task at the k-th kept position, so the result is exactly the unselected tasks in their original order |
| Tasks.KeptCount | todo.js:154-156 | the number of kept positions is n minus the number of distinct in-range selected indices |
| Tasks.RemainingLength | todo.js:154-156 | the list left after `delete` has n minus the number of distinct in-range selected indices tasks |
| Tasks.RemainingIgnoresOutOfRange | todo.js:154-156 | two answers that select the same in-range positions delete the same tasks, so out-of-range indices have no effect |
| Tasks.RemainingUnselected | todo.js:154-156 | an answer that names no in-range position, the empty answer included, leaves the list unchanged |
| Tasks.RemainingIsSubset | todo.js:154-156 | every task left after `delete` was in the list before |
| Tasks.DoneChoicesDescribeTasks | todo.js:105-109 | the `done` prompt has one entry per task; entry i has value i, starts checked iff task i is done, and is labelled with the task's glyph, a space and its title |
| Tasks.DeleteChoicesDescribeTasks | todo.js:140-143 | the `delete` prompt has one entry per task; entry i has value i, is labelled with task i's title, and starts unchecked |
| Tasks.DoneDefaultKeepsStatus | todo.js:105-122 | confirming the `done` prompt without toggling anything leaves every status as it was |
| Tasks.DeleteDefaultKeepsAll | todo.js:140-156 | confirming the `delete` prompt without toggling anything deletes nothing |
| Tasks.RowOfShowsTask | todo.js:68-85 | the row for the task at index i is numbered i + 1, shows the task's title and timestamp, is struck through iff the task is done, and shows ✓ iff the task is done and ✗ iff it is not |
| Storage.LoadTasks | todo.js:12-21 | a well-formed file yields the tasks it holds; the result is empty exactly when the file is absent, empty, unreadable or holds an empty list |
| Storage.SaveThenLoad | todo.js:12-29 | loading after a successful save yields exactly the saved list; after a failed save the file is either the old one or one that loads as the empty list |
| Storage.Store.Save | todo.js:23-29 | the file becomes `AfterWrite` of the old file, the list and the write outcome: the saved list when the write succeeds, otherwise the old file or a file that loads as empty |
| TaskLists.TaskList.Push | todo.js:39-43 | the list grows by one, the new task is last, and the earlier tasks are unchanged and in the same order |
| TaskLists.TaskList.MarkDone | todo.js:120-122 | the loop leaves the list equal to `Marked` of the old list and the answer, so task i is done iff i is in the answer and nothing else changes |
| Commands.Add | todo.js:37-47 | the file is the result of writing the old list plus one new task; after a successful write the stored list is the old list plus one new task (given title, not done) at the end; after a failed write the file is the old one or loads as empty; the confirmation is printed whatever the outcome |
| Commands.RenderRows | todo.js:68-86 | one row per task, in order; row k shows task k as `RowOfShowsTask` describes |
| Commands.List | todo.js:54-89 | shows "No tasks yet.." iff the list is empty, and otherwise the table with the four headings and row k showing task k; the store is not in its frame, so it is never changed |
| Commands.Done | todo.js:97-127 | on an empty list: no prompt, no save, and "No tasks found!"; otherwise the prompt is `DoneChoices` of the stored list, and the file is the result of writing `Marked` of the old list and the answer (a successful write stores exactly that; a failed one leaves the old file or one that loads as empty) |
| Commands.Delete | todo.js:133-160 | on an empty list: no prompt, no save, and "No tasks found"; otherwise the prompt is `DeleteChoices` of the stored list, and the file is the result of writing `Remaining` of the old list and the answer (a successful write stores exactly that; a failed one leaves the old file or one that loads as empty) |
| Commands.Session | todo.js:34-127 | on a fresh store: adding "buy milk" and "call mom" and listing shows rows 1 and 2 with ✗ and neither struck through; `done` with index 0 then makes the next `list` show row 1, still numbered 1 and titled "buy milk", struck through with ✓, and row 2 exactly as before |

## Left out

- Reading and writing the file (`fs.existsSync`, `readFileSync`, `writeFileSync`) are abstracted. The file is the `Stored` value of a `Store`. How a write ends is the `outcome` parameter. A partly written file is modelled as unparseable text, since a proper prefix of the saved JSON never parses.
- JSON parsing and serialisation are foreign library calls. The model assumes that parsing what `JSON.stringify` wrote gives back the same tasks. Text that parses but is not an array of well-formed tasks is not modelled. Examples are `null` and `[{}]`. On such text the real program may fail inside a handler, or may carry on with the missing fields as `undefined`.
- The diagnostics that `loadTasks` and `saveTasks` print on failure are not modelled. The effect of those failures is modelled: an empty list on load, and on save a file that is unchanged or loads as empty.
- The `inquirer` prompt and its `await` are replaced by the `answer` parameter. Cancelling the prompt by an interrupt ends the process without saving. That path belongs to the prompt library and the runtime, not to `todo.js`, so it is not modelled.
- Colours, strikethrough rendering, column widths and console output from `chalk`, `cli-table3` and `console.log` are not modelled. A row records whether its title is struck through and which glyph it shows. The messages are returned as strings.
- `Date`, `toISOString` and `toLocaleString` are not modelled. `createdAt` is an opaque string, supplied to `add` as `now`, and a row carries it unformatted.
- `commander`'s argument dispatch and the `--version` output ("1.0.0") are not modelled. Each command is a separate method.
- TaskLists.TaskList.MarkDone: the loaded tasks are JavaScript objects whose `done` field the loop assigns. In the model a task is a value, and the loop replaces element i of the `TaskList`'s sequence. Nothing else refers to those objects, so the two are equivalent.
- Task titles are not required to be non-empty. The code does not check this, although a title is meant to name the task.
