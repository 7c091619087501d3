# Task list of a React Native to-do app, in Dafny

The app keeps an ordered list of tasks (`id`, `text`, `completed`), a text box and a
selected view (`all`, `completed`, `incomplete`). The Add button appends a task
unless the typed text is blank after trimming, tapping a task flips its `completed`
flag, the Delete button removes it, and the screen shows the list filtered by the
selected view. Whenever the list is replaced, it is written to device storage, but
only if it is not empty.

Every operation in the app builds a new list from the old one, so the model is made
of functions over `seq<Task>` (or over an `AppState` record holding the list, the text
box and the filter), with lemmas relating them:

- `js_string.dfy` (module `JsString`): `String.prototype.trim` with the ECMAScript
  whitespace and line-terminator characters, and the fact that the add guard needs:
  a trimmed string is empty exactly when every character is whitespace.
- `js_array.dfy` (module `JsArray`): `Array.prototype.filter` and `Array.prototype.map`
  as recursive functions, with lemmas: filter keeps exactly the positions whose element
  passes, in increasing order; it distributes over concatenation; filtering by a test
  and by its negation splits the list; map and filter commute when the map does not
  change the test's verdict.
- `todo.dfy` (module `Todo`): the `Task` record, `AddTask`, `DeleteTask`,
  `ToggleTaskCompleted`, `FilteredTasks`, and `SaveEffect` for the storage guard.

Task ids are a parameter of `AddTask`. The app takes them from the clock, so two tasks
can share an id, and nothing in the model assumes otherwise. Delete and toggle are
therefore stated over every task carrying the id. Where uniqueness matters, a lemma
says so: `DeleteUniqueId` proves that deleting an id that exactly one task carries
shortens the list by one.
`AddThenDelete` shows what happens when a new id collides with an older one.

Three behaviours of the code that a reader might not expect: ids are not guaranteed
unique; delete and toggle act on every matching task, not just one; and emptying the
list is never saved.
`DeleteLastTaskNotSaved` spells out the third point: after the only task is deleted,
storage still holds that task.

## Model

| member | source | states |
|---|---|---|
| `JsString.Trim` | App.tsx:28 | the trimmed text is empty exactly when every character of the input is ECMAScript whitespace or a line terminator; a non-empty result neither starts nor ends with whitespace |
| `JsString.TextStart` | App.tsx:28 | trim's start index: everything before it is whitespace, and the character at it (if any) is not |
| `JsString.TextEnd` | App.tsx:28 | trim's end index: everything from it on is whitespace, and the character just before it (if any) is not |
| `JsString.TrimIsInfix` | App.tsx:28 | the trimmed text is the contiguous piece of the input that begins at the start index, and only whitespace lies before and after it |
| `JsArray.Filter` | App.tsx:41 | the filter result is no longer than the input, every element passes the callback, and every element comes from the input |
| `JsArray.Map` | App.tsx:46-48 | the map result has the input's length and holds the callback's image of each element at the same position |
| `Todo.AddTask` | App.tsx:27-38 | the state is unchanged exactly when the input is blank after trimming; otherwise the old list is kept as a prefix and one last task is added with the given id, the untrimmed input text and completed false; the input is cleared and the filter kept |
| `Todo.DeleteTask` | App.tsx:40-42 | no task with the id remains, every remaining task comes from the old list, and the length drops by the number of tasks carrying the id |
| `Todo.DeleteTaskKeepsOthersInOrder` | App.tsx:41 | delete keeps exactly the positions whose id differs, in increasing order, and keeps each such task as often as the old list had it |
| `Todo.DeleteTaskAbsent` | App.tsx:41 | deleting returns the list unchanged exactly when no task carries the id |
| `Todo.DeleteUniqueId` | App.tsx:41 | when exactly one task carries the id, deleting it shortens the list by exactly one |
| `Todo.AddThenDelete` | App.tsx:27-42 | deleting the id of a just-added task equals deleting that id from the old list: the old list comes back when the id was new, and older tasks with the same id are removed too |
| `Todo.ToggleTaskCompleted` | App.tsx:44-50 | length, positions, ids and texts are kept; completed changes exactly on tasks carrying the id; all other tasks are identical |
| `Todo.ToggleTwice` | App.tsx:47 | toggling the same id twice is the identity on the list |
| `Todo.ToggleAbsent` | App.tsx:46-48 | toggling leaves the list unchanged exactly when no task carries the id |
| `Todo.ToggleCommutes` | App.tsx:44-50 | toggles of two ids give the same list in either order |
| `Todo.DeleteAfterToggle` | App.tsx:40-50 | delete after toggle equals toggle after delete, and toggling a task before deleting it makes no difference |
| `Todo.FilteredTasks` | App.tsx:79-84 | the `all` view is the list itself; the `completed` view holds only completed tasks and the `incomplete` view only incomplete ones, all drawn from the list |
| `Todo.FilteredTasksInOrder` | App.tsx:79-84 | each view keeps exactly the positions whose task it shows, in their original order |
| `Todo.ViewsPartition` | App.tsx:79-84 | the `completed` and `incomplete` views together hold every task as often as the list does, their lengths sum to the list length, and no task is in both |
| `Todo.SaveEffect` | App.tsx:86-90 | storage changes only when the list is non-empty and the write succeeds, and then it holds exactly the list |
| `Todo.DeleteLastTaskNotSaved` | App.tsx:86-90 | deleting the only task empties the list, and storage still holds that task afterwards because an empty list is never written |
| `Todo.ScenarioAdds` | App.tsx:27-38 | adding "Buy milk" with id "1" and then "Walk dog" with id "2" to an empty list gives exactly those two incomplete tasks in that order |
| `Todo.ScenarioTwoTasks` | App.tsx:27-84 | after adding "Buy milk" and "Walk dog" and tapping the first, the completed view is just the finished "Buy milk" and the incomplete view just "Walk dog" |

## Left out

- Id generation from `Date.now()` (App.tsx:32): the id is a parameter of `AddTask`, and uniqueness is not assumed.
- Reading and writing device storage and the JSON encoding (App.tsx:52-77). `SaveEffect` takes the encoding as exact. It takes a failed write, which the app catches and logs, as a flag that leaves storage unchanged. Loading the stored list at start-up is not part of this model.
- React's hook scheduling: effects running after renders, batching of state updates, and the race between the start-up load and early edits (App.tsx:86-94). `addTask` reads the list captured by the render. The other two operations use updater callbacks. Both read the current list when operations run one at a time, which is the only case modelled.
- Typing in the text box and pressing a filter button (App.tsx:105-141): each just replaces one field of `AppState`.
- Rendering: the header, buttons, `FlatList`, the footer count (`tasks.length`) and the style sheet (App.tsx:96-219).
- `components/AnimatedTask.tsx`: the fade-out animation and its timing. Its only logic is calling delete once the fade ends, which `DeleteTask` models.
- Strings are sequences of Unicode scalar values, not UTF-16 code units. Every character that trim removes is a single code unit, so trimming is unaffected.
