# To-do screen state machine

A model of the `TodoApp` screen of a small React to-do list backed by a
hosted document store. The screen keeps three state cells: the ordered list
of `{id, text}` records (`todos`), the pending text of the input field
(`input`) and the edit cursor (`editId`, `null` meaning "create"). Four
event handlers turn one state into the next: `addTodo` (Add/Update button),
`editTodo` (an item's Edit button, through a browser prompt), `deleteTodo`
(an item's Delete button, optimistic with rollback) and `deleteAllTodos`
(Delete All). Each handler reads the state as it was when it started and
every `setTodos` replaces the list wholesale, so what a handler leaves
behind is its last `setTodos`, computed from that snapshot.

Layout:

- `js_string.dfy`, module `JsString`: `String.prototype.trim` and the
  emptiness guard `s.trim() === ''` that both `addTodo` and `editTodo` use.
- `todo_list.dfy`, module `TodoList`: the record type and the three list
  computations the handlers use (replace the text of an id, rename an id,
  filter out an id), with their order, identity and id-uniqueness lemmas.
- `todo_screen.dfy`, module `TodoScreen`: class `TodoApp` with the three
  state cells as fields, one method per handler, and a ghost log
  `setTodosCalls` of every value passed to `setTodos`, so that the optimistic and
  rollback writes are stated, not only the final one. The store's
  answers (success or failure, the id it assigns, the fetched records) and
  the dialogs' answers (`confirm`'s boolean, `prompt`'s string or `null`)
  are method parameters; the clock-derived placeholder id is a parameter
  too, with no uniqueness assumed.

Behaviour the code has and its evident intent does not, all modelled as the
code has it:

- A successful create loses the new item. The final `setTodos` of the
  create branch maps the handler's snapshot, which never held the
  placeholder item, so the list ends as it was before the call (if the
  placeholder id happens to equal an existing id, that item is renamed to
  the store's id instead). Line 40 looks the item up by `newTodo.id`, and
  only the optimistic list of line 36 holds that id, so the evident intent
  is that the new item keeps its place and takes the store's id;
  `TodoList.RenameAppended` proves that mapping the optimistic list gives
  exactly that.
- `if (editId)` tests JavaScript truthiness, so a cursor holding the empty
  string is create mode (`TodoScreen.InUpdateMode`). Nothing in the screen
  ever sets the cursor to a non-null value, so the update branch of
  `addTodo` is unreachable from the UI; it is modelled with the cursor as
  part of the state.
- When the awaited store call of `addTodo` rejects, the rest of the handler
  does not run: in update mode nothing changes, in create mode the
  optimistic list stays and the input is not cleared.
- `editTodo` does not await its store update, so its outcome never reaches
  the list.
- `deleteAllTodos` never touches the list before its store calls, so a
  failure leaves the list as it was; there is nothing to roll back.

## Model

| member | source | states |
|---|---|---|
| `JsString.TrimStart` | src/Screens/Todoapp.jsx:25 | the result is a suffix of the input that does not start with whitespace, and everything dropped is whitespace |
| `JsString.TrimEnd` | src/Screens/Todoapp.jsx:25 | the result is a prefix of the input that does not end with whitespace, and everything dropped is whitespace |
| `JsString.IsBlank` | src/Screens/Todoapp.jsx:25 | the guard `input.trim() === ''` (also negated at line 50 for the prompt answer): true exactly when `Trim` returns the empty string; `JsString.BlankIffAllWhitespace` gives its meaning |
| `JsString.Trim` | src/Screens/Todoapp.jsx:25 | `s.trim()`: the result neither starts nor ends with whitespace and is never longer than `s`; `JsString.TrimIsInterior` gives the slice it keeps |
| `JsString.TrimIsInterior` | src/Screens/Todoapp.jsx:50 | `trim` returns the interior of the string: a contiguous slice starting where the leading whitespace ends, with only whitespace dropped before and after it |
| `JsString.BlankIffAllWhitespace` | src/Screens/Todoapp.jsx:25 | the guard `trim() === ''` holds exactly when every character is JavaScript whitespace or a line terminator (both directions) |
| `TodoList.ReplaceText` | src/Screens/Todoapp.jsx:31 | replace-by-id keeps the length, the order and every id; items with the id get the new text, every other item is unchanged |
| `TodoList.ReplaceTextKeepsIds` | src/Screens/Todoapp.jsx:53 | the sequence of ids is the same after a text replacement, so unique ids stay unique |
| `TodoList.ReplaceTextAbsent` | src/Screens/Todoapp.jsx:53 | replacing the text of an id no item has leaves the list as it was |
| `TodoList.RenameId` | src/Screens/Todoapp.jsx:40 | rename-by-id keeps the length, the order and every text; items with the old id get the new one, every other item is unchanged |
| `TodoList.RenameIdAbsent` | src/Screens/Todoapp.jsx:40 | renaming an id that no item has (the placeholder, absent from the snapshot) leaves the list exactly as it was |
| `TodoList.RenameIdKeepsUniqueIds` | src/Screens/Todoapp.jsx:40 | renaming to an id not already present keeps ids unique |
| `TodoList.RenameAppended` | src/Screens/Todoapp.jsx:35-40 | the rename applied to the optimistic list (snapshot plus placeholder) would keep the new item in last place with the store's id and its text |
| `TodoList.RemoveId` | src/Screens/Todoapp.jsx:60 | filter-by-id: an item survives exactly when it was in the list and has another id; the list never grows |
| `TodoList.RemoveIdAppend` | src/Screens/Todoapp.jsx:60 | filtering distributes over concatenation, so the survivors keep their relative order |
| `TodoList.RemoveIdIsSubsequence` | src/Screens/Todoapp.jsx:60 | the survivors are a subsequence of the snapshot (same items, same order, some left out) |
| `TodoList.RemoveIdAbsent` | src/Screens/Todoapp.jsx:60 | filtering an id that no item has keeps the whole list |
| `TodoList.RemoveIdKeepsUniqueIds` | src/Screens/Todoapp.jsx:60 | filtering keeps unique ids unique |
| `TodoList.RemoveIdIdempotent` | src/Screens/Todoapp.jsx:60 | filtering twice by one id is filtering once |
| `TodoList.AppendFreshKeepsUniqueIds` | src/Screens/Todoapp.jsx:35-36 | appending an item with a new id keeps ids unique |
| `TodoScreen.InUpdateMode` | src/Screens/Todoapp.jsx:27 | JavaScript truthiness of `if (editId)`: update mode exactly when the cursor is a non-empty string; `null` and `''` mean create mode |
| `TodoScreen.TodoApp.constructor` | src/Screens/Todoapp.jsx:7-9 | the initial state is an empty list, an empty input and no cursor |
| `TodoScreen.TodoApp.SetTodos` | src/Screens/Todoapp.jsx:7 | `setTodos` replaces the list wholesale and logs the value; input and cursor are unchanged |
| `TodoScreen.TodoApp.Load` | src/Screens/Todoapp.jsx:14-21 | the initial fetch replaces the list by the fetched records in order; a rejected fetch sets nothing |
| `TodoScreen.TodoApp.ChangeInput` | src/Screens/Todoapp.jsx:111 | the input cell takes the text field's value; nothing else changes |
| `TodoScreen.TodoApp.AddTodo` | src/Screens/Todoapp.jsx:24-45 | blank input is a no-op on all three cells; otherwise update mode (truthy cursor) and create mode behave as `SaveEdit` and `SaveNew` state; ids stay unique when the placeholder is new |
| `TodoScreen.TodoApp.SaveEdit` | src/Screens/Todoapp.jsx:27-32 | after the update resolves, the list is the snapshot with the cursor's items re-texted (length, order, ids kept), the cursor is null and the input empty; a rejected update changes nothing |
| `TodoScreen.TodoApp.SaveNew` | src/Screens/Todoapp.jsx:34-40 | the optimistic list is the snapshot plus exactly one placeholder item at the end; after `addDoc` resolves the list is the snapshot renamed, hence the pre-call list when the placeholder is new, and the input is empty; a rejection leaves the optimistic list and the input |
| `TodoScreen.TodoApp.EditTodo` | src/Screens/Todoapp.jsx:48-55 | a cancelled or blank prompt leaves the list; otherwise items with the id get the new text and nothing else changes; ids stay unique |
| `TodoScreen.TodoApp.DeleteTodo` | src/Screens/Todoapp.jsx:58-81 | the optimistic list is the snapshot filtered by id; a declined dialog or a failed delete restores the exact snapshot; a confirmed successful delete keeps the filtered list; the alert raised matches the outcome |
| `TodoScreen.TodoApp.DeleteAllTodos` | src/Screens/Todoapp.jsx:84-102 | declined: nothing changes and no alert; confirmed and every delete resolved: the list is empty; confirmed with a failure: the list is untouched |

## Left out

- Rendering and layout (src/Screens/Todoapp.jsx:104-155), including the
  Add/Update button label, which is a one-line function of the cursor.
- The document store calls (`getDocs`, `addDoc`, `updateDoc`, `deleteDoc`,
  `doc`, `collection`): a foreign library; replaced by outcome parameters.
  `deleteAllTodos` takes one boolean for "the fetch and every delete
  resolved", since which delete failed does not change the local state.
- `window.confirm`, `prompt`, `alert` and `console.error`: dialog answers
  are parameters, alerts are returned as an `Alert` value, logging is
  dropped. The `text` argument of `editTodo` only pre-fills the prompt and
  is not a parameter of the model.
- `Date.now().toString()`: the placeholder id is a parameter; no
  uniqueness is assumed, and the unique-id postconditions say so in their
  hypotheses.
- Concurrency: each handler is one atomic step; interleavings of handlers
  across awaits and React re-renders, and the concurrency of
  `Promise.all`, are not modelled.
- Strings are sequences of Unicode scalar values rather than UTF-16 code
  units, so unpaired surrogates cannot be represented; no character that
  `trim` strips is one.
- src/App.jsx (routing only) is not part of this model.
