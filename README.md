# Task lists of a to-do application, in Dafny

This project models the state of the `App` component of a single-page to-do
application. The component holds three ordered lists of task records: the
active `tasks`, the `completedTasks` and the recently `deletedTasks`. It also
holds the text of the "new task" input box. A record is a text (`value`) and
an `editable` flag, which is set while its row is being edited inline.

The event handlers change these lists:
- add a task;
- complete or remove an active task;
- permanently remove one deleted task, or all of them;
- clear the completed tasks;
- edit, update and save the text of an active task.

A task is named by its position in the list the view shows it from. The
view only passes positions that exist, so each handler requires a position
inside its list.

`todo_app.dfy` holds one module, `TodoApp`. It has the `Task` record, the
list operations the handlers use (splice one position out, set one field of
one record) with element-wise contracts, and lemmas about them. The class
`App` has the four state fields and one method per handler. Each method
states the complete new state, and also:
- that a move keeps every task (the multiset of all tasks is unchanged);
- by how much the total number of tasks changes;
- that the completed and deleted lists never gain a task that is still
  being edited, as long as the view only offers Complete and Remove for
  rows that are not being edited.

This revision of `src/App.js` has no task identifiers, no deadlines, no
sorted view and no recover operation. Handlers take positions, only the
empty string is rejected, and a stored value that is not valid JSON makes
loading fail.

## Model

| member | source | states |
|---|---|---|
| `TodoApp.RemoveAt` | src/App.js:40-42 | splicing one position out shortens the list by one; elements before it keep their index, elements after it move down by one, in order |
| `TodoApp.WithEditable` | src/App.js:69-73 | setting the flag of record `i` keeps the length, the record's text and every other record |
| `TodoApp.WithValue` | src/App.js:75-79 | replacing the text of record `i` keeps the length, the record's flag and every other record |
| `TodoApp.RemoveAtMultiset` | src/App.js:59-63 | splicing out position `i` loses exactly one copy of the record there and no other record |
| `TodoApp.MoveKeepsTasks` | src/App.js:36-43 | moving record `i` to the end of another list keeps the multiset of records and the total count of the two lists |
| `TodoApp.SettledAfterMove` | src/App.js:108-125 | appending a record that is not being edited to a list with no record being edited keeps that list free of them |
| `TodoApp.SettledAfterRemoveAt` | src/App.js:59-63 | splicing a record out of a list with no record being edited keeps it so |
| `TodoApp.RemoveLastUndoesAppend` | src/App.js:50-63 | a record appended to a list and then spliced out at the last position leaves the list as it was |
| `TodoApp.SaveUndoesEdit` | src/App.js:69-85 | starting an edit on a record that is not being edited, then saving it, restores the list exactly |
| `TodoApp.UpdateRoundTrip` | src/App.js:75-79 | writing back the old text undoes an update; of two updates to one record the later one wins |
| `TodoApp.App.constructor` | src/App.js:5-14 | each list starts as what its storage key held, or empty when the key held nothing; the input starts empty |
| `TodoApp.App.SetInputValue` | src/App.js:187-189 | typing replaces the input text and leaves the three lists unchanged |
| `TodoApp.App.AddTask` | src/App.js:29-34 | a non-empty input (spaces only included) is appended as a non-editable task and the input cleared; the multiset of all tasks gains exactly that task and the total grows by one; an empty input changes nothing; the completed and deleted lists never change |
| `TodoApp.App.CompleteTask` | src/App.js:36-43 | task `i` leaves the active list, with the others in order, and the same record (flag included) is appended to the completed list; the deleted list and input are unchanged; the multiset of all tasks and the total are unchanged; a non-editing task keeps a completed list with no editing task free of them |
| `TodoApp.App.ClearCompletedTasks` | src/App.js:45-48 | the completed list becomes empty (so a second call changes nothing); the other lists and the input are unchanged; the total drops by the old completed count |
| `TodoApp.App.RemoveTask` | src/App.js:50-57 | task `i` leaves the active list, with the others in order, and the same record is appended to the deleted list; the completed list and input are unchanged; the multiset of all tasks and the total are unchanged; a non-editing task keeps a deleted list with no editing task free of them |
| `TodoApp.App.PermanentlyRemove` | src/App.js:59-63 | deleted task `i` is dropped, with the rest in order; the other lists and input are unchanged; the multiset of all tasks loses exactly that record and the total drops by one |
| `TodoApp.App.PermanentlyRemoveAll` | src/App.js:65-67 | the deleted list becomes empty (so a second call changes nothing); the other lists and the input are unchanged; the total drops by the old deleted count |
| `TodoApp.App.EditTask` | src/App.js:69-73 | only the flag of active task `i` becomes true; its text, the other tasks, the list length, the other lists and the input are unchanged |
| `TodoApp.App.UpdateTask` | src/App.js:75-79 | only the text of active task `i` is replaced, with no emptiness check; its flag, the other tasks, the length, the other lists and the input are unchanged |
| `TodoApp.App.SaveTask` | src/App.js:81-85 | only the flag of active task `i` becomes false; everything else is unchanged |

## Left out

- Rendering: the markup built by `getContentView` and the returned view, and the `currentTab` state with its tab buttons. These are presentation only. The one fact kept from the view is that Complete and Remove are offered only for rows that are not being edited. It appears as the condition of the "stays free of editing tasks" postconditions, not as a precondition.
- Persistence: reading the three lists from browser storage with `JSON.parse`, and writing them back with `JSON.stringify` after each change, including the extra write in `clearCompletedTasks`. The constructor takes what each key held as an `Option`: `Some` of a stored array of task records, or `None` for any falsy parse result (a missing key, `null`, `false`, `0` or `""`), which the source replaces by `[]`. Other stored shapes, such as a truthy value that is not an array (`{}`), would become the state as they are; they are not modelled. Malformed stored data, which makes `JSON.parse` throw, is not modelled either.
- React scheduling: when `useState` setters and `useEffect` hooks run, and how setter calls are batched. Each handler is one atomic update of the fields.
- Object sharing: `editTask`, `updateTask` and `saveTask` copy the array but change a record that the previous state still refers to. Records here are values, so that sharing is not modelled.
- DOM events: `updateTask` and the input box read the new text from the event object. Here the text is passed as a parameter.
- Out-of-range positions: with a position past the end, `completeTask` and `removeTask` append `undefined` to the target list and leave the active list as it is; `permanentlyRemove` changes nothing, because `splice` then deletes nothing; `editTask`, `updateTask` and `saveTask` throw on the field write. A negative position would make `splice` remove from the end of the list, so `completeTask(-1)` would append `undefined` and also drop the last active task. The view only passes indices produced by `map`, so every handler that takes a position requires a `nat` inside its list.
