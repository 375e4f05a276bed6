# To-do list: stored task list and displayed rows

A model of a small browser to-do list. The page keeps the tasks as a JSON
array of strings under the local-storage key `'tasks'`, and shows one row per
task in a list. Handlers render the stored tasks on load, create a task from the
input field, delete one row, edit one row's text and clear everything. The
model proves what each handler does to the key and to the rows, and when the
two stay in step.

Modules:

- `Wrappers` (`wrappers.dfy`): `Option`.
- `JsonStrings` (`json_strings.dfy`): `Stringify`, which is `JSON.stringify` for an array of
  strings with its exact escapes. `Parse` reads back the text of such an array
  written without white space; any other text reads as `NotTaskArray`. `ParseStringify` proves the round trip.
- `JsString` (`js_string.dfy`): `Trim`, the ECMAScript `trim` (WhiteSpace and
  LineTerminator characters).
- `TaskList` (`task_list.dfy`): `FindIndex` (`findIndex` by `===`), and
  `RemoveFirst`, a reference definition of removing the first occurrence.
  Lemmas connect the splice at the found index to `RemoveFirst`.
- `TodoApp` (`todo_app.dfy`): `Load` (`getTasksFromLocalStorage`), and the
  class `TodoPage`. Its fields are `slot` (the raw text under `'tasks'`, or
  `None`), `rows` (the text of each displayed row, in order) and `input` (the
  field's value). Each handler is a method. The client methods
  `CreateExample`, `DeleteAndClearExample`, `DuplicateDeleteExample` and
  `EditExample` show what the contracts let a caller conclude.

Behaviour of the code that a reader might not expect, and that the model keeps:

- `createTask` tests the trimmed input but shows and stores it untrimmed.
- A stored value that is not a list is not read as an empty list.
  `renderTasks` logs and returns. `storeTaskInLocalStorage` and
  `removeTaskFromLocalStorage` throw from `push`/`findIndex`. The model's
  `StoreTask`/`RemoveTask` then return `completed == false` and write nothing.
  `CreateTask` keeps the row it had already added and keeps the field's text.
  `DeleteRow` keeps the removal of the row.
- `editSingleTask` changes only the row, never storage.
- Deleting removes the first stored task with the row's text. With repeated
  texts this can be a different copy than the clicked row
  (`DuplicateDeleteExample`, `TaskList.RemoveFirstDuplicate`).

## Model

| member | source | states |
|---|---|---|
| `TodoApp.Load` | index.js:28-31 | an absent key reads as the empty list; beyond that it has no contract of its own, and `LoadEmpty` and `LoadAfterSave` state what loading returns |
| `JsonStrings.Stringify` | index.js:38 | the text is bracketed by `[` and `]`; beyond that it has no contract of its own, and `ParseStringify` and `StringifyInjective` state what it writes |
| `JsonStrings.Parse` | index.js:30 | only text starting with `[` reads as a list; beyond that it has no contract of its own, and `ParseStringify` states that it inverts `Stringify` |
| `TodoApp.LoadAfterSave` | index.js:28-39 | loading after saving a list returns exactly that list, in order |
| `TodoApp.LoadEmpty` | index.js:28-31 | an absent key, or a key holding the empty list, loads as the empty list |
| `JsonStrings.ParseStringify` | index.js:30-38 | parsing the JSON text written for a list of strings gives back the same list |
| `JsonStrings.StringifyInjective` | index.js:38 | two different lists are never written as the same text |
| `JsonStrings.ParseCharsEscape` | index.js:30-38 | the escaped body of a string literal, closed by a quote, parses back to the original string and leaves the text after it |
| `JsonStrings.ParseElementsJoin` | index.js:30-38 | the comma-joined literals of a non-empty list, closed by a bracket, parse back to the list |
| `JsonStrings.EscapeChar` | index.js:38 | a character is written as itself exactly when it is not a quote, a backslash or a control character, and otherwise as an escape starting with a backslash |
| `JsString.Trim` | index.js:108 | `trim()` is empty exactly when every character is white space; otherwise it starts and ends with a non-white-space character and is a contiguous part of the input, and everything dropped before and after it is white space |
| `JsString.TrimStart` | index.js:108 | the result is a suffix of the input, everything dropped is white space, and the result does not start with white space |
| `JsString.TrimEnd` | index.js:108 | the result is a prefix of the input, everything dropped is white space, and the result does not end with white space |
| `TaskList.FindIndex` | index.js:199 | -1 exactly when the text does not occur; otherwise the index holds the text and no earlier index does |
| `TaskList.RemoveFirst` | index.js:199-204 | the length drops by one when the text occurs and is unchanged when it does not |
| `TaskList.RemoveFirstAbsent` | index.js:199-207 | when the text does not occur, the list written back is the list read |
| `TaskList.RemoveFirstAt` | index.js:202-203 | when index i holds the text and no earlier index does, removing the first occurrence is splicing out index i |
| `TaskList.SpliceAtFindIndex` | index.js:199-204 | splicing out one element at the found index, or leaving the list alone when it is -1, is removing the first occurrence |
| `TaskList.RemoveFirstMultiset` | index.js:199-204 | removal takes exactly one copy of the text out of the list, if there was one, and nothing else |
| `TaskList.RemoveFirstDistinct` | index.js:155-161 | with no repeated texts, removing by the text at index k removes index k |
| `TaskList.RemoveFirstEarlier` | index.js:159-160 | for any list where the text at k also occurs at an earlier index j, removing by that text splices out an index at or before j, never k |
| `TaskList.RemoveFirstDuplicate` | index.js:159-160 | for the list [a, b, a] with a != b, removing by the last row's text leaves [b, a], not [a, b] |
| `TodoApp.TodoPage.constructor` | index.js:6-11 | a fresh page has the given stored value and input and no rows |
| `TodoApp.TodoPage.SaveTasks` | index.js:37-39 | the key holds the serialized list, which loads back as that list; the rows and the input are unchanged |
| `TodoApp.TodoPage.AppendRow` | index.js:45-79 | one row with the given text is added at the end; nothing else changes |
| `TodoApp.TodoPage.StoreTask` | index.js:124-132 | the stored list becomes the old list followed by the task; a non-list value is left as it is and reported as not completed |
| `TodoApp.TodoPage.RemoveTask` | index.js:194-208 | the stored list becomes the old list without the first occurrence of the text, which for an absent text is the old list; a non-list value is left as it is |
| `TodoApp.TodoPage.Render` | index.js:84-98 | the stored tasks are appended to the rows in stored order, so an empty list shows exactly the stored list; a non-list value leaves the rows unchanged; storage is untouched |
| `TodoApp.TodoPage.CreateTask` | index.js:104-118 | input that trims to empty changes nothing; otherwise the untrimmed input is added to the rows and to the stored list and the field is cleared; rows and storage that were in step stay in step |
| `TodoApp.TodoPage.ClearAll` | index.js:137-144 | when confirmed the key is absent and the rows are empty, so both load as empty whatever they held, and a second call gives the same state; when declined nothing changes |
| `TodoApp.TodoPage.DeleteRow` | index.js:150-163 | when confirmed the row at k is removed and the first stored copy of its text is removed; rows in step with distinct storage stay in step; when declined nothing changes |
| `TodoApp.TodoPage.EditRow` | index.js:169-188 | only a confirmed, non-empty prompt answer replaces the text of row k and nothing else; storage never changes, so rows in step fall out of step when the text changes |

## Left out

- DOM row construction, CSS classes and icon markup (index.js:45-79): a row is modelled as its text only, which is the text of the `li`, since the icons hold no text.
- Event wiring and dispatch on `classList.contains` (index.js:16-22, 155, 174): delete and edit are separate methods that take the index of a displayed row.
- The `confirm` and `prompt` dialogs are foreign calls. Their answers are parameters: a `bool`, and an `Option<string>` where `None` is a cancelled prompt.
- `event.preventDefault()` and `console.error` have no effect on the modelled state and are left out.
- `Parse` recognises only a JSON array of string literals written without white space. `JSON.parse` also accepts that array with white space, arrays holding other values, and other JSON values. The model reads all of these as `NotTaskArray`.
- For an array written with white space, or one holding elements other than strings, the code renders rows, pushes and splices. The model renders no row and writes nothing: render leaves the rows as they are, create keeps only its added row and leaves the field's text, and delete keeps only its removal of the row. For other JSON values the code, like the model, renders nothing and writes nothing.
- Malformed stored text makes `JSON.parse` throw (index.js:30). The model also reads it as `NotTaskArray`. In every handler the resulting state is the same as for a non-list value. Render adds no row and no handler writes the key. Create keeps its added row, and delete keeps its removal of the row. The model does not tell apart an exception and the logged return.
- JavaScript strings are UTF-16 code units, while the model's characters are Unicode scalar values. Lone surrogates, and the way `JSON.stringify` escapes them, are not modelled.
- `Parse` rejects every `\u` escape in the range D800-DFFF, also a correctly paired one such as `["\ud83d\ude00"]`, which `JSON.parse` decodes into one character. The app never writes such text itself, because `Stringify` writes such characters unescaped.
- `localStorage.clear()` also removes keys other than `'tasks'`. Only the `'tasks'` key is modelled.
- `localStorage.setItem` throwing when storage is full is not modelled.
- The `filter` and `taskEdit` elements (index.js:8, 10) are never used by the code.
