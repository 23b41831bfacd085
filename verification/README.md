# To-do list screen: a Dafny model

This project models the single screen of a small React Native to-do list
application (`App.js`). The screen keeps five pieces of state: the task list,
the text box contents, the task being edited, whether the edit dialog is open,
and the search box contents. Its handlers change that state:

- add a task, refusing blank input;
- delete every task with a given id;
- open a task for editing;
- save the edit;
- cancel the edit dialog.

The list shown on screen is the task list filtered case-insensitively by the
search box.

Layout:

- `jsstring.dfy`, module `JsString`: the three JavaScript string operations
  the screen uses. These are `trim` (with ECMAScript's exact whitespace and
  line-terminator set), `toLowerCase` and `includes`. Each comes with its
  characterisation: a blank string is all whitespace, and `includes` means
  "occurs at some position".
- `filtering.dfy`, module `Filtering`: `Array.prototype.filter` on sequences.
  It is proved to return the order-preserving subsequence made of exactly
  the positions whose element passes the test.
- `tasklist.dfy`, module `TaskList`: the `Task` record and the list
  computations of the handlers, as pure functions. These are delete (a
  filter), the edit's `map`, and the search. The lemmas cover order, length,
  membership, idempotence, no-ops and uniqueness of ids.
- `app.dfy`, module `TodoApp`: the class `App`, with one field per piece of
  state and one method per handler. Each method states the whole new state
  in terms of the old one. The frame of each method names exactly the fields
  that handler sets, so everything else is unchanged. The invariant `Valid()`
  says that the edit dialog is only shown once a task has been chosen.

Behaviour of `App.js` the model keeps:

- A new task stores the text exactly as typed. The trimmed text is only used
  to decide whether the input is blank.
- A task is an id and a text, nothing more.
- Ids are not unique. They come from the clock, so two tasks added within the
  same millisecond share one. Delete and save therefore act on every task
  with the matching id. Uniqueness appears only as an explicit hypothesis
  (`TaskList.UniqueIds`) of the lemmas that need it.
- Saving an edit whose id is no longer in the list is not an error. It leaves
  the list as it was (`TaskList.UpdateAbsentIsNoop`).
- Saving an edit neither trims the text nor rejects blank text.

## Model

| member | source | states |
|---|---|---|
| TodoApp.App.constructor | App.js:5-9 | The screen starts with no tasks, an empty text box and search box, no task chosen and the dialog closed |
| TodoApp.App.SetNewTask | App.js:75 | Typing sets the text box, the same box the edit dialog uses (App.js:109), and changes nothing else |
| TodoApp.App.SetSearchTerm | App.js:87 | Typing in the search box sets the search term and changes nothing else |
| TodoApp.App.AddTask | App.js:12-20 | Blank input is refused (the alert) and leaves the list and the text box as they were. Otherwise exactly one task `{id, text}` is appended at the end, with the untrimmed text, and the text box is emptied |
| JsString.TrimStart | App.js:13 | The result is the longest suffix that does not start with whitespace, and every character dropped is whitespace |
| JsString.TrimEnd | App.js:13 | The result is the longest prefix that does not end with whitespace, and every character dropped is whitespace |
| JsString.IsTrimmable | App.js:13 | The characters `trim()` drops: ECMAScript's WhiteSpace (tab, vertical tab, form feed, byte-order mark, Unicode space separators) and LineTerminator (line feed, carriage return, U+2028, U+2029) |
| JsString.Trim | App.js:13 | `trim()` returns the piece of its input left after dropping only whitespace at both ends, and that piece neither starts nor ends with whitespace; together these determine the result |
| JsString.IsBlank | App.js:13 | `newTask.trim() === ''` holds exactly when every character of the input is whitespace or a line terminator |
| JsString.TrimEmptyIffAllTrimmable | App.js:13 | `trim()` returns the empty string exactly when every character of its input is whitespace or a line terminator |
| TodoApp.App.DeleteTask | App.js:23-25 | The list becomes the old list without every task carrying the id. Nothing else changes |
| TaskList.RemoveId | App.js:24 | A task is in the result exactly when it was in the list and does not carry the id |
| TaskList.DeleteSelectsOthers | App.js:24 | Delete returns, in the original order, exactly the tasks at the positions whose id differs |
| TaskList.DeleteLength | App.js:24 | Delete never lengthens the list, and strictly shortens it when the id is present |
| TaskList.DeleteAbsentIsNoop | App.js:24 | Deleting an id no task carries leaves the list unchanged |
| TaskList.DeleteIdempotent | App.js:24 | Deleting the same id twice gives the same list as deleting it once |
| TaskList.DeleteUniqueRemovesOne | App.js:24 | When ids are unique and the id is present, delete removes exactly one task |
| TaskList.DeleteKeepsUnique | App.js:24 | Delete preserves uniqueness of ids |
| TodoApp.App.EditTask | App.js:39-43 | Opening an edit chooses the task, puts its text in the text box and shows the dialog. The list and the search term are untouched |
| TodoApp.App.UpdateTask | App.js:28-36 | Save replaces the text of every task carrying the chosen task's id with the text box contents, without trimming or blank check. It then empties the text box and closes the dialog. With no task chosen and a non-empty list, reading the id fails and nothing changes. From an open dialog, Save always succeeds |
| TaskList.ReplaceText | App.js:30-32 | The edit's `map` keeps the length and every id in its place. Tasks carrying the id get the new text, and every other task is unchanged |
| TaskList.UpdateAbsentIsNoop | App.js:30-32 | Saving for an id no task carries leaves the list unchanged |
| TaskList.UpdateIdempotent | App.js:30-32 | Saving the same text twice gives the same list as saving it once |
| TaskList.UpdateKeepsUnique | App.js:30-32 | Saving preserves uniqueness of ids |
| TaskList.DeleteAfterUpdate | App.js:24-32 | Deleting an id after editing it gives the same list as deleting it without the edit |
| TaskList.UpdateCommutesWithDelete | App.js:24-32 | Editing one id and deleting a different id give the same list in either order |
| TaskList.AppendFreshKeepsUnique | App.js:18 | Appending a task whose id is not yet in the list preserves uniqueness of ids |
| TodoApp.App.CancelEdit | App.js:115 | Cancel closes the dialog and changes nothing else, including the list and the text box. The back gesture does the same (App.js:102) |
| TodoApp.App.FilteredTasks | App.js:46-48 | The shown list holds exactly the tasks whose lower-cased text includes the lower-cased search term. With an empty search term it is the whole list |
| TaskList.Search | App.js:46-48 | A task is in the result exactly when it is in the list and its lower-cased text includes the lower-cased term |
| TaskList.SearchSelectsMatches | App.js:46-48 | The search returns, in list order, exactly the tasks at the positions whose lower-cased text has the lower-cased term as a substring |
| TaskList.SearchEmptyTermIsIdentity | App.js:46-48 | An empty search term returns the list unchanged |
| TaskList.SearchCaseInsensitive | App.js:47 | Two search terms that lower-case alike give the same result |
| TaskList.SearchLowerTerm | App.js:47 | Searching for a term gives the same result as searching for its lower-cased form |
| JsString.LowerChar | App.js:47 | An ASCII capital becomes its small letter, and every other character is kept |
| JsString.ToLower | App.js:47 | Lower-casing keeps the length and lower-cases each character in its place |
| JsString.ToLowerIdempotent | App.js:47 | Lower-casing twice gives the same string as lower-casing once |
| JsString.ToLowerHasNoCapitals | App.js:47 | A lower-cased string holds no ASCII capital |
| JsString.Includes | App.js:47 | `includes` tries each start position from the left; `IncludesIffOccurs` characterises it as the substring test |
| JsString.IncludesIffOccurs | App.js:47 | `includes` holds exactly when the term occurs in the text at some position |
| JsString.IncludesEmpty | App.js:47 | Every text includes the empty term |
| Filtering.Filter | App.js:46-48 | `filter` never lengthens a list. An element is in the result exactly when it is in the input and passes the test |
| Filtering.Kept | App.js:46-48 | The positions kept by `filter` increase, and each one holds an element that passes. Every passing position is among them |
| Filtering.FilterAtKept | App.js:46-48 | `filter` picks the elements at the kept positions, in order |
| Filtering.FilterSelectsExactly | App.js:46-48 | `filter` returns the order-preserving subsequence of exactly the passing positions |
| Filtering.FilterAllPass | App.js:46-48 | When every element passes, `filter` returns the input unchanged |
| Filtering.FilterShrinks | App.js:24 | When some element fails, `filter` returns a strictly shorter list |
| Filtering.FilterIdempotent | App.js:24 | Filtering twice with the same test gives the same list as filtering once |

## Left out

- Rendering is not modelled: the JSX markup, the list widget, the text inputs, the buttons, the dialog and the whole style sheet (App.js:50-123, App.js:126-245). These only display the state and forward user actions to the handlers.
- The error alert is not modelled as a side effect. `TodoApp.App.AddTask` reports it as `added == false`.
- The clock (`Date.now().toString()`) is not modelled. The new task's id is a parameter of `TodoApp.App.AddTask`.
- The exception raised when Save reads the id of a task that was never chosen is not modelled as a JavaScript error. `TodoApp.App.UpdateTask` reports it as `ok == false` with the state unchanged.
- JsString.LowerChar: lower-cases only the ASCII capitals A-Z. JavaScript's `toLowerCase` also maps capitals of other scripts (for example accented Latin, Greek and Cyrillic letters), and a few characters change length under Unicode case mapping. So the model's search is case-insensitive only for ASCII letters.
- JsString.IsTrimmable: takes the set of space separators from the current Unicode standard. It does not track how that set changes between Unicode versions.
- React's batching of state updates is not modelled. Each handler is one atomic transition that starts from the state before it.
- The chosen task is stored as a value. In JavaScript it is a reference to the list's task object, but no handler changes a task object in place, so the difference cannot be observed.
