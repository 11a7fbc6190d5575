# Task manager core in Dafny

A model of the in-memory core of a single-page task manager: the `TasksComponent` of
`src/app/tasks/tasks.component.ts`. The component holds an ordered list of tasks, a draft task bound
to the edit form and the index of the task being edited (`-1` for a new one). The page calls it to
save the draft (append or overwrite), start editing, delete, change a status, sort by priority or by
status, and export the list as CSV text.

Files:

- `tasks.dfy` (module `Tasks`): the `Task` record, the three-valued `Priority`, the default draft and
  the validation gate (title, description and due date must be non-empty).
- `sort.dfy` (module `TaskSort`): the two rank maps (high 1, medium 2, low 3; to-do 1, in-progress 2,
  completed 3), the stable-sort contract that ECMA-262 (2019 edition, section 22.1.3.27) puts on
  `Array.prototype.sort`, an insertion sort `RankSort` standing for the engine's sort, and the proofs
  that it is a permutation, sorted by rank and stable, and that this contract admits exactly one
  result, so the model does not depend on which stable algorithm the engine uses.
- `csv.dfy` (module `TaskCsv`): `Join` (JavaScript's `join`), the export text, and `Split` as its
  partner to state what the text encodes: with no newline in any cell it reads back as the header
  plus one line per task, and a line reads back as its five cells exactly when no cell holds a
  comma. The export does no quoting, as the component does not; a lemma shows two different tasks
  with the same export.
- `component.dfy` (module `TaskComponent`): the class `TasksComponent` with fields `tasks` (a
  `seq<Task>` the methods reassign), `newTask` and `editingTaskIndex`, one method per operation, and
  JavaScript's `splice(start, 1)` with its negative and out-of-range starts. Two client members show
  what the contracts give a caller: editing then saving replaces exactly the edited slot, and a
  low-priority task added before a high-priority one ends up second after a priority sort.

Neither `deleteTask` nor the sorts reset `editingTaskIndex`, so a draft
being edited while the list is reordered is saved over whatever task has moved into its slot. The
model keeps this behaviour (the sort methods leave the index unchanged, and `AddTask` overwrites the
slot the index names).

The stored list keeps one invariant, `Tasks.AllComplete`: every task in it has a non-empty title,
description and due date. The constructor establishes it and every method that changes the list
preserves it, because only a draft that passes the save gate is ever stored, a status change touches
only the status, a deletion only removes and a sort only reorders.

## Model

| member | source | states |
|---|---|---|
| `Tasks.PriorityName` | src/app/tasks/tasks.component.ts:11 | The three priority strings `high`, `medium`, `low` the export writes (line 113) are non-empty and hold no comma and no newline, so the priority cell never splits a line |
| `Tasks.DefaultTaskIsIncomplete` | src/app/tasks/tasks.component.ts:25 | The default draft has empty title, description and due date, priority low and status to-do, so it fails the save gate `IsComplete` (title, description and due date non-empty, line 45) |
| `TaskSort.Rank` | src/app/tasks/tasks.component.ts:96-101 | Every priority and every status in the status map has a rank between 1 and 3 |
| `TaskSort.Insert` | src/app/tasks/tasks.component.ts:97 | One step of the insertion sort standing for the engine's sort at lines 97 and 101: the result has a rank for every task; its order properties are the lemmas below |
| `TaskSort.RankSort` | src/app/tasks/tasks.component.ts:95-102 | The sort used for `this.tasks.sort(...)` at lines 97 and 101: the result has a rank for every task; permutation, order and stability are the lemmas below |
| `TaskSort.InsertPermutes` | src/app/tasks/tasks.component.ts:97 | Inserting one task into a list adds exactly that task to its multiset |
| `TaskSort.RankSortPermutes` | src/app/tasks/tasks.component.ts:97 | The sort only reorders: the multiset of tasks is unchanged |
| `TaskSort.InsertSorted` | src/app/tasks/tasks.component.ts:97 | Inserting into a list sorted by rank keeps it sorted |
| `TaskSort.RankSortSorted` | src/app/tasks/tasks.component.ts:97 | The sorted list is non-decreasing in rank |
| `TaskSort.OfRankAppend` | src/app/tasks/tasks.component.ts:97 | The tasks of one rank in a concatenation are those of the first part followed by those of the second |
| `TaskSort.InsertOfRank` | src/app/tasks/tasks.component.ts:97 | Insertion puts the new task in front of the tasks of its own rank and changes the order of no other rank |
| `TaskSort.RankSortOfRank` | src/app/tasks/tasks.component.ts:97 | Stability: for every rank, the tasks of that rank appear in the sorted list in their original order |
| `TaskSort.RankSortIsStableSort` | src/app/tasks/tasks.component.ts:95-102 | The sort meets the whole stable-sort contract: permutation, non-decreasing rank, equal ranks in original order |
| `TaskSort.SortedIsRankBlocks` | src/app/tasks/tasks.component.ts:97 | A list sorted by rank is its rank-1 tasks, then its rank-2 tasks, then its rank-3 tasks |
| `TaskSort.StableSortIsUnique` | src/app/tasks/tasks.component.ts:95-102 | Any list that is a permutation of the input, sorted by rank and stable is exactly the model's sorted list |
| `TaskCsv.Split` | src/app/tasks/tasks.component.ts:116-119 | JavaScript's `String.prototype.split` with a one-character separator; the component never splits, and `Split` is only the reader of the text the join at these lines builds: it always gives at least one part |
| `TaskCsv.Fields` | src/app/tasks/tasks.component.ts:109-115 | A task's line has exactly five cells: title, description, due date, priority text, status |
| `TaskCsv.FieldsInjective` | src/app/tasks/tasks.component.ts:109-115 | Two tasks with the same five cells are the same task, so the cells lose nothing |
| `TaskCsv.Rows` | src/app/tasks/tasks.component.ts:109-118 | One line per task, in list order, each the task's five cells joined by commas |
| `TaskCsv.JoinSnoc` | src/app/tasks/tasks.component.ts:116-119 | `Join` (JavaScript's `join`, lines 117-119): joining one more line appends a newline and that line |
| `TaskCsv.SplitJoin` | src/app/tasks/tasks.component.ts:116-119 | Splitting at the separator inverts `Join` when no part holds the separator |
| `TaskCsv.JoinSplit` | src/app/tasks/tasks.component.ts:116-119 | `Join` inverts splitting for every text, so a text is determined by its parts |
| `TaskCsv.HeaderIsJoin` | src/app/tasks/tasks.component.ts:108-117 | The header text is the column array of line 108 joined by commas as at line 117 |
| `TaskCsv.GenerateCSV` | src/app/tasks/tasks.component.ts:107-122 | The export always begins with the header line `Title,Description,Due Date,Priority,Status` |
| `TaskCsv.EmptyListIsHeaderOnly` | src/app/tasks/tasks.component.ts:108-119 | An empty list exports just `Title,Description,Due Date,Priority,Status` |
| `TaskCsv.GenerateCSVAppend` | src/app/tasks/tasks.component.ts:109-119 | One more task adds a newline and its line at the end and changes nothing before |
| `TaskCsv.Lines` | src/app/tasks/tasks.component.ts:107-122 | With no newline in any cell, the text splits into the header and then one line per task, in order |
| `TaskCsv.RowFields` | src/app/tasks/tasks.component.ts:109-118 | A task's line reads back as its five cells exactly when no cell holds a comma; otherwise it reads back as more than five |
| `TaskCsv.SplitJoinCount` | src/app/tasks/tasks.component.ts:118 | Splitting a joined line gives at least as many parts as were joined, and more when a part holds the separator |
| `TaskCsv.UnquotedLinesCollide` | src/app/tasks/tasks.component.ts:109-119 | Without quoting, two different tasks can have the same export |
| `TaskCsv.SingleTaskExample` | src/app/tasks/tasks.component.ts:107-122 | The export of one task A, B, 2024-01-01, high, to-do is the header, a newline and `A,B,2024-01-01,high,to-do` |
| `TaskComponent.SpliceStart` | src/app/tasks/tasks.component.ts:63 | `splice` starts at the index itself when it is in range and counts from the end when it is negative |
| `TaskComponent.SpliceOne` | src/app/tasks/tasks.component.ts:63 | `splice(i, 1)` removes the task at `i`, or at `len + i` for a negative `i`, the first task below `-len`, nothing at or past the end |
| `TaskComponent.SpliceOneRemoves` | src/app/tasks/tasks.component.ts:62-65 | Deleting at a valid index removes exactly that task: the rest plus the removed task is the old multiset, and later tasks shift left by one |
| `TaskComponent.SpliceOneKeepsComplete` | src/app/tasks/tasks.component.ts:62-65 | Deleting with `splice` from a list whose tasks all pass the save gate leaves such a list, for every index |
| `TaskComponent.PermutationKeepsComplete` | src/app/tasks/tasks.component.ts:95-102 | Any reordering of a list whose tasks all pass the save gate is such a list |
| `TaskComponent.TasksComponent.constructor` | src/app/tasks/tasks.component.ts:24-26 | A new component has no tasks, the default draft and edit index -1; the empty list trivially holds only complete tasks |
| `TaskComponent.TasksComponent.AddTask` | src/app/tasks/tasks.component.ts:44-55 | A draft failing the gate `IsComplete` (line 45) changes nothing; otherwise the draft overwrites the edited slot, or is appended when the edit index is one past the end (index back to -1 in both cases), or is appended when nothing is edited (index unchanged), and the draft returns to the defaults; if every stored task was complete, every stored task still is |
| `TaskComponent.TasksComponent.EditTask` | src/app/tasks/tasks.component.ts:57-60 | The draft becomes a copy of task `index`, the edit index becomes `index`, the list is unchanged |
| `TaskComponent.TasksComponent.DeleteTask` | src/app/tasks/tasks.component.ts:62-65 | The list becomes `splice(index, 1)` of the old list (for a valid index: the tasks before and after it); draft and edit index are unchanged; if every stored task was complete, every stored task still is |
| `TaskComponent.TasksComponent.UpdateTaskStatus` | src/app/tasks/tasks.component.ts:67-70 | Only the status of task `index` changes; every other field, every other task, the draft and the edit index stay; if every stored task was complete, every stored task still is |
| `TaskComponent.TasksComponent.SortTasksByPriority` | src/app/tasks/tasks.component.ts:95-98 | The new list is a stable sort of the old one by priority rank (permutation, high to low, equal priorities in original order); draft and edit index unchanged; if every stored task was complete, every stored task still is |
| `TaskComponent.TasksComponent.SortTasksByStatus` | src/app/tasks/tasks.component.ts:99-102 | For statuses in the rank map, the new list is a stable sort of the old one by status rank; draft and edit index unchanged; if every stored task was complete, every stored task still is |
| `TaskComponent.TasksComponent.GenerateCSV` | src/app/tasks/tasks.component.ts:107-122 | The component's export: the header alone for no tasks, and the header then one line per task when no cell holds a newline |
| `TaskComponent.EditThenSave` | src/app/tasks/tasks.component.ts:44-60 | Editing task `i` and saving a complete draft replaces exactly task `i` and keeps the length; an incomplete draft leaves the list unchanged; if every stored task was complete, every stored task still is |
| `TaskComponent.LowThenHighSorted` | src/app/tasks/tasks.component.ts:95-98 | A priority sort of a low-priority task followed by a high-priority one swaps them |
| `TaskComponent.PrioritySortScenario` | src/app/tasks/tasks.component.ts:44-55 | Adding task X (low) then task Y (high) and sorting by priority gives Y then X |

## Left out

- `loadTasks` and `saveTasks` (browser `localStorage` with JSON encoding) are foreign I/O; the calls to `saveTasks` inside the mutators are treated as no-ops, and a new component starts with no tasks.
- `downloadCSV` and `exportTasksToCSV` (Blob, object URL and anchor-click plumbing) are DOM I/O; only the text `generateCSV` builds is modelled.
- `setToday` and the `isPlatformBrowser` check depend on the clock and on the host platform.
- `sortTasksByDueDate` depends on JavaScript `Date` parsing and floating-point time differences, where an unparsable date gives NaN; it is not modelled.
- Angular decorators, the template and the form bindings; the client members set `newTask` directly as the form would.
- TaskComponent.TasksComponent.SortTasksByStatus: requires every status to be in the rank map; for any other status the comparator returns NaN and the engine's order is implementation-defined.
- TaskComponent.TasksComponent.AddTask: requires `editingTaskIndex <= |tasks|` when the draft is complete; a larger stale index (editing the last task, then deleting two tasks) makes the JavaScript array grow with holes, which a sequence cannot hold.
- TaskComponent.TasksComponent.EditTask: requires a valid index; out of range the draft becomes a copy of `undefined`, an object with no fields.
- TaskComponent.TasksComponent.UpdateTaskStatus: requires a valid index; out of range the field write throws a TypeError.
- JavaScript numbers are modelled as unbounded integers for indices; fractional or non-finite indices are not.
