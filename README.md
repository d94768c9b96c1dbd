# Todo list: the task collection of `App`

This project models the task-collection logic of the `App` component in
`src/App.tsx`, a single-page todo list written with React. Without the
rendering, `App` holds an ordered array of task records. Each record has an
optional `id`, a `task` text, an `assignee` and a `priority`. `App` also holds
the task being edited, the task awaiting delete confirmation, the two filter
selections and a notification message. Its handlers add, edit and delete
tasks and set or reset the filters. Two values are derived from the state
and shown:

- the filtered view: the matching tasks, newest first;
- the assignee choices: `"All"` followed by each assignee once.

At start-up the state comes either from stored text or from a bundled seed.

The project has three modules:

- `Sequences` (`sequences.dfy`) models the array methods the component
  relies on, generically: `reverse`, `filter`, and de-duplication through a
  `Set`. For `reverse` it proves that each position holds the input's
  element at the mirrored position. For the filter and the de-duplication it
  proves that the result is the subsequence of the input at exactly the
  positions the operation keeps.
- `TaskModel` (`task_model.dfy`) holds the `Task` record and the pure
  computations. These are the filtered view, the `map` that edits, the
  `filter` that deletes, the save dispatch, the assignee list and the
  start-up decision. Lemmas state what the component promises about each.
- `TodoApp` (`app.dfy`) holds the class `App`. Its fields are the state
  hooks, and its methods are the event handlers. Each method says the new
  value of every field. Two client methods (`AddThenFilterSession`,
  `DeleteThenResetSession`) replay a short session using only these
  contracts.

Notes on how the model reads the code:

- `id` is `Option<string>`. The comparisons `task.id === updatedTask.id` and
  `task.id !== taskToDelete.id` become `Option` equality, so two missing ids
  are equal, as `undefined === undefined` is. `saveTask` tests `if (task.id)`,
  which is JavaScript truthiness: present and non-empty (`Truthy`).
- `Priority` includes `"All"`, as the source's type does: the priority
  filter state has that type and starts at `"All"`.
- The filtered view is `Reverse(Keep(tasks, Matches))`. A task appended to
  the collection therefore appears first in the view when it matches
  (`FilteredAfterAppend`).
- `WellFormed` says that every id is truthy and no two are equal. The source
  never checks this. `tasksData` and `generateRandomId` are not part of this
  model, so the lemmas show only that saving and deleting KEEP the property
  when it already holds.
- An empty collection is written to storage as `"[]"`, which is two
  characters long. The start-up rule (`length > 2`) then falls back to the
  seed. So after every task is deleted, a reload shows the seed tasks again
  (`ReloadAfterSave`).
- The assignee `"All"` is also the wildcard. A task whose assignee is the
  text `"All"` cannot be selected on its own. It also makes `"All"` appear a
  second time in the assignee choices. The rest of the list is still
  duplicate-free (`AvailableAssigneesSpec`).

## Model

| member | source | states |
|---|---|---|
| `Sequences.Reverse` | src/App.tsx:39 | the result has the input's length, and position k holds the input's element at the mirrored position |
| `Sequences.Keep` | src/App.tsx:31-38 | every kept element satisfies the test, nothing is gained, and an element is kept exactly when it is in the input and passes |
| `Sequences.KeepIsSubsequence` | src/App.tsx:31-38 | the filter result is the subsequence of the input at exactly the positions whose element passes |
| `Sequences.Distinct` | src/App.tsx:92 | the de-duplicated list has no repeated element and has exactly the input's elements |
| `Sequences.DistinctIsFirstOccurrences` | src/App.tsx:92 | the de-duplicated list is the subsequence of the input at exactly the first occurrence of each value, so it keeps insertion order like a `Set` |
| `TaskModel.FilteredTasksSpec` | src/App.tsx:30-40 | the view has at most the collection's length; it holds exactly the tasks that pass both selections, where `"All"` is a wildcard; read backwards, it is the subsequence of the collection at exactly the passing positions |
| `TaskModel.FilteredAllIsReverse` | src/App.tsx:30-40 | with both selections at `"All"`, the view is the whole collection reversed |
| `TaskModel.FilteredAfterAppend` | src/App.tsx:30-43 | after an append, the view is the new task (when it passes) followed by the old view |
| `TaskModel.FilteredSingleAssignee` | src/App.tsx:32-39 | selecting an assignee other than `"All"` that exactly one task has, with priority `"All"`, shows just that task |
| `TaskModel.EditedSpec` | src/App.tsx:47-50 | editing keeps the length and the id at every position; a position becomes the edited task exactly when its id equals the edited task's id, and is unchanged otherwise |
| `TaskModel.EditedAbsent` | src/App.tsx:47-50 | editing an id no task has leaves the collection unchanged |
| `TaskModel.EditedIdempotent` | src/App.tsx:47-50 | editing twice with the same task is the same as editing once |
| `TaskModel.EditedUpdatesOne` | src/App.tsx:47-50 | in a well-formed collection whose task j has the edit's id, editing updates position j alone |
| `TaskModel.EditedWellFormed` | src/App.tsx:47-50 | editing keeps a collection well formed (truthy, unique ids) |
| `TaskModel.RemovedSpec` | src/App.tsx:65 | deleting has at most the collection's length; a task survives exactly when its id differs from the deleted one's; the result is the subsequence of the collection at exactly those positions |
| `TaskModel.RemovedAbsent` | src/App.tsx:65 | deleting an id that no task has changes nothing |
| `TaskModel.RemovedIdempotent` | src/App.tsx:65 | deleting the same id a second time changes nothing more |
| `TaskModel.RemovedDropsOne` | src/App.tsx:65 | in a well-formed collection, deleting the id of task j removes exactly position j and shortens the collection by one |
| `TaskModel.RemovedAfterAppend` | src/App.tsx:42-43 | deleting a task just appended under an id no other task has gives back the collection from before the append |
| `TaskModel.RemovedWellFormed` | src/App.tsx:65 | deleting keeps a collection well formed |
| `TaskModel.SavedSpec` | src/App.tsx:79-83 | saving a task with a truthy id edits; saving one without appends it last under the fresh id and adds one task; either way a well-formed collection stays well formed |
| `TaskModel.AvailableAssigneesSpec` | src/App.tsx:90-93 | the choices start with `"All"`; the rest are pairwise distinct and are exactly the tasks' assignees; they are the subsequence of the assignees at their first occurrences |
| `TaskModel.AvailableAssigneesAfterAppend` | src/App.tsx:90-93 | after an append, the choices are the old choices, plus the new task's assignee at the end when no earlier task had it |
| `TaskModel.AvailableAssigneesOfDistinct` | src/App.tsx:90-93 | when no assignee repeats, the choices are `"All"` followed by the assignees in collection order |
| `TaskModel.ReloadAfterSave` | src/App.tsx:12-17 | a non-empty collection whose saved text is longer than two characters (as `JSON.stringify` of a non-empty array always is) and parses back to it is restored by a reload; this length is assumed, not proved; an empty collection, saved as `"[]"`, reloads as the seed |
| `TodoApp.App.constructor` | src/App.tsx:12-23 | start-up state: tasks from the load decision, nothing being edited or deleted, no notification, both filters `"All"` |
| `TodoApp.App.AddTask` | src/App.tsx:42-45 | the collection becomes the old one plus the new task at the end; the added message is shown; the view gains the task in front when it passes the filters; the assignee choices gain its assignee at the end when it is new; nothing else changes |
| `TodoApp.App.EditTask` | src/App.tsx:47-53 | the collection becomes the edit of the old one, with the same length and ids; the edited message is shown; nothing else changes |
| `TodoApp.App.OnClickEdit` | src/App.tsx:55-57 | only the task being edited changes |
| `TodoApp.App.OnClickDelete` | src/App.tsx:59-61 | only the task awaiting deletion changes |
| `TodoApp.App.ConfirmDeleteTask` | src/App.tsx:63-70 | with a task pending, its id is deleted, the pending task is cleared and the deleted message is shown; with none pending, nothing changes; a well-formed collection stays well formed |
| `TodoApp.App.SaveTask` | src/App.tsx:79-83 | the collection becomes the save of the old one, the edit form is closed, the edited or added message is shown, well-formedness is kept, and nothing else changes |
| `TodoApp.App.SetAssigneeFilter` | src/App.tsx:21 | only the assignee selection changes |
| `TodoApp.App.SetPriorityFilter` | src/App.tsx:22 | only the priority selection changes |
| `TodoApp.App.ResetFilters` | src/App.tsx:85-88 | both selections become `"All"`, nothing else changes, and the view is the whole collection reversed |

## Left out

- Rendering and styling: the JSX, the SVG icon, the form and confirmation
  modals, and the "Add Task" button handler that opens the form on an empty
  draft (src/App.tsx:97-164). These are presentation.
- Persistence I/O. `localStorage.getItem`, `localStorage.setItem` and the
  `useEffect` that writes on every change are browser I/O, so stored text is
  a constructor parameter. `JSON.parse` and `JSON.stringify` are a foreign
  serializer, so the parser is a function parameter. It is total and always
  yields a task array, so two failures of the source are not modelled: a
  parse error, which throws, and stored JSON that is valid but not an array
  of tasks (stored `null` passes the length test at src/App.tsx:14, and
  `tasks.filter` at src/App.tsx:31-32 then throws).
- String length: JavaScript measures `length` in UTF-16 code units, but the
  model counts Dafny characters. The two differ only for characters outside
  the Basic Multilingual Plane.
- `generateRandomId` (`./utils`) is not part of this model. `SaveTask` takes
  the new id as a parameter. When the saved task has no truthy id, it
  requires that id to be non-empty and unused, which is what the generator
  is relied on for.
- The notification timer: the `setTimeout` that clears the message after
  3000 ms (src/App.tsx:74-76). This is deferred execution. The model sets
  the message and never clears it. The source does not guard against an
  older timer clearing a newer message, and the model does not claim such a
  guard.
- Sorting. The `sorting` state is handed to `@tanstack/react-table`, which
  is not part of this model.
- React semantics: `useMemo` caching, batched state updates and re-renders.
  Each handler is modelled as one atomic update of the fields it sets, read
  from the state before the event.
- `availablePriorities` (src/App.tsx:95) is a fixed list handed to the
  filter controls. No operation of the core reads it, so it is not modelled.
- The seed data `tasksData` (`./data`) is not part of this model. The seed
  is a parameter.
