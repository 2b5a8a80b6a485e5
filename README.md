# To-do list task collection, in Dafny

This project models the task collection of the `TodoList` component of a
Persian/English to-do list web application (`src/TodoList.js`). The
collection maps a date string (`YYYY-MM-DD`, the day picked in the calendar)
to that day's ordered list of tasks `{id, text, completed}`. Three
operations rebuild it:

- `addTodo` appends a task to the selected day and clears the text field,
  unless the text is blank after `trim()`;
- `deleteTodo` filters out the tasks with a given id;
- `toggleTodo` flips `completed` on the tasks with a given id.

The progress bar shows a value derived from the selected day:
`completed / total * 100`, or 0 when the day has no tasks.

Every operation in the source builds a new map and new lists. So the model
is made of functions over values: `map<string, seq<Task>>` for the
collection and `State(todos, input)` for what `addTodo` updates.
The effects `setTodos(...)` and `setInput(...)` become the returned value.
`Date.now()`, the source of a new task's id, is the parameter `now`.

Files:

- `jsstring.dfy` (module `JsString`): JavaScript's `String.prototype.trim`.
  It strips the characters that the ECMAScript Language Specification
  classes as WhiteSpace or LineTerminator.
- `todolist.dfy` (module `TodoList`): tasks, the three operations, the
  progress value and the lemmas about them.

Facts about the code that shape the model:

- The code takes a new task's id from `Date.now()`. Two additions in the
  same millisecond therefore share an id. The model takes the id as the
  parameter `now`. Uniqueness is proved only under the assumption that
  `now` is not already an id of that day (`AddTodoKeepsValid`).
- Nothing in src/TodoList.js or src/App.js persists the collection.
- `deleteTodo` and `toggleTodo` read `todos[selectedDate]` with no default.
  So the model requires the selected day to be present. The buttons that
  call them are rendered only for the selected day's existing tasks.
- `App.js` renders `TodoList` without the `todos` and `setTodos` props
  (src/App.js:97-102, 156-160). The model takes the collection as an input
  and describes the component as written for a caller that supplies it.

## Model

| member | source | states |
|---|---|---|
| `JsString.IsWhitespace` | src/TodoList.js:14 | the character set `trim()` strips (ECMAScript WhiteSpace and LineTerminator) holds space, tab, LF and CR, holds no printable ASCII character, and lies at or below U+FEFF |
| `JsString.IsBlank` | src/TodoList.js:14 | the strings `trim()` empties: the empty string is blank, and a string holding any printable ASCII character is not |
| `JsString.Trim` | src/TodoList.js:14 | `input.trim()` is the slice of the input between a blank prefix and a blank suffix; it is empty exactly when the input is blank, and when non-empty it neither starts nor ends with whitespace |
| `JsString.SkipLeading` | src/TodoList.js:14 | the forward scan of `trim()` stops at the first non-whitespace character at or after its start, or at the end; everything it passes is whitespace |
| `JsString.SkipTrailing` | src/TodoList.js:14 | the backward scan of `trim()` stops just after the last non-whitespace character above its lower bound, or at that bound; everything it passes is whitespace |
| `TodoList.CurrentTodos` | src/TodoList.js:52 | the selected day's list; a day with no entry reads as the empty list |
| `TodoList.AddTodo` | src/TodoList.js:13-26 | blank input leaves the collection and the input unchanged; otherwise the selected day (created if absent) becomes its old list followed by one task `(now, untrimmed input, false)`, and the input becomes `""`; every other day keeps exactly its list |
| `TodoList.AddTodoRejectsBlank` | src/TodoList.js:14-25 | `addTodo` leaves the state unchanged if and only if the input is blank |
| `TodoList.AddTodoCounts` | src/TodoList.js:15-21 | after a non-blank `addTodo`, the selected day's total count grows by one and its completed count stays the same |
| `TodoList.AddTodoKeepsValid` | src/TodoList.js:18-21 | if ids are unique within every day and `now` is not an id of the selected day, they stay unique after `addTodo` |
| `TodoList.Without` | src/TodoList.js:35 | the filter result is a subsequence of the list, so order is kept, and holds exactly the tasks whose id differs from the given id |
| `TodoList.WithoutMultiset` | src/TodoList.js:35 | the filter keeps every task with another id as many times as the list holds it, and none with the given id |
| `TodoList.WithoutNoMatch` | src/TodoList.js:35 | filtering out an id that no task has returns the list unchanged |
| `TodoList.WithoutUniqueRemovesOne` | src/TodoList.js:35 | with unique ids, filtering out an id that is present removes exactly one task |
| `TodoList.WithoutAppend` | src/TodoList.js:35 | filtering a list followed by one task is the filtered list followed by the filtered task |
| `TodoList.SubsequenceKeepsUniqueIds` | src/TodoList.js:35 | a subsequence of a list with unique ids has unique ids, and holds only tasks of that list |
| `TodoList.DeleteTodo` | src/TodoList.js:34-40 | the selected day keeps, in order, exactly its tasks whose id differs, each as many times as before; the set of days is unchanged and every other day keeps its list; a missing id leaves the whole collection unchanged |
| `TodoList.DeleteTodoKeepsValid` | src/TodoList.js:34-40 | `deleteTodo` keeps ids unique within every day |
| `TodoList.DeleteUndoesAdd` | src/TodoList.js:13-40 | deleting the task just added under a fresh id gives the selected day back its old list |
| `TodoList.Flip` | src/TodoList.js:44 | one toggled task keeps its id and text, and its `completed` is negated exactly when its id matches |
| `TodoList.Toggled` | src/TodoList.js:43-45 | the mapped list has the same length, ids and texts, and `completed` is negated exactly where the id matches |
| `TodoList.ToggledNoMatch` | src/TodoList.js:43-45 | mapping with an id that no task has returns the list unchanged |
| `TodoList.ToggleTodo` | src/TodoList.js:42-50 | the selected day keeps length, order, ids and texts, and `completed` is negated exactly on tasks with the given id; the set of days is unchanged and every other day keeps its list; a missing id leaves the whole collection unchanged |
| `TodoList.ToggleTodoKeepsValid` | src/TodoList.js:42-50 | `toggleTodo` keeps ids unique within every day |
| `TodoList.ToggleTwiceRestores` | src/TodoList.js:42-50 | toggling the same id twice restores the collection |
| `TodoList.CompletedCount` | src/TodoList.js:54 | the completed count is at most the total; it equals the total exactly when every task is completed, and is 0 exactly when none is |
| `TodoList.CompletedCountAppend` | src/TodoList.js:54 | appending a task adds one to the completed count if that task is completed, and nothing otherwise |
| `TodoList.TotalCount` | src/TodoList.js:53 | the selected day's total is never below its completed count, and is 0 exactly when the day is absent or empty |
| `TodoList.RatioBounds` | src/TodoList.js:55 | `(c / t) * 100` with `0 <= c <= t` and `t > 0` lies in 0..100; it is 100 exactly when `c == t` and 0 exactly when `c == 0` |
| `TodoList.Progress` | src/TodoList.js:52-55 | progress lies in 0..100; it is 0 for an absent or empty day and exactly when no task is completed; it is 100 exactly when the day has tasks and all are completed |
| `TodoList.AddToggleDeleteExample` | src/TodoList.js:13-55 | on an empty day, adding "Grade exams" gives one uncompleted task and progress 0; toggling it gives progress 100; deleting it gives an empty list and progress 0 |

## Left out

- The rendering in `src/TodoList.js` (lines 57-137) is not part of this
  model. That covers the progress-bar markup, the `Math.round(progress)`
  label and the ✓/☐ button labels.
- `handleKeyPress` (src/TodoList.js:28-32) only calls `addTodo` on the Enter
  key. React's `useState` and the `setTodos`/`setInput` setters become
  returned values. The order in which React applies the two setters is not
  modelled.
- `Date.now()` is a clock read. It is the parameter `now` of `AddTodo`.
- Progress: the source divides IEEE doubles. `Progress` computes the same
  expression in exact real arithmetic, so floating-point rounding is not
  modelled.
- Task ids: JavaScript compares numbers with `===`, and `Date.now()` always
  returns an integer. Ids are modelled as `int`, so non-integer ids, `NaN`
  and mixed types are not modelled.
- `deleteTodo`/`toggleTodo` on an absent day: the source throws a
  `TypeError`. The model requires the day to be present and does not model
  the exception.
- `src/App.js` is not part of this model. It holds the language, theme,
  music and background-rotation state, the text tables and the layout.
- Persistence, the remote backend and authentication: none of them appears
  in the modelled files.
