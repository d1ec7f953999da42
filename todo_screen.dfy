/** The `TodoApp` screen's state and its four event handlers.

    The component holds three state cells: the list `todos`, the pending
    text `input` and the edit cursor `editId` (JavaScript `null` is `None`).
    A handler reads the cells as they were when it started (the snapshot of
    the render it belongs to) and each `setTodos` replaces the list
    wholesale, so the list a handler leaves behind is the value of its last
    `setTodos`, computed from that snapshot. Handlers are modelled as atomic
    steps; what the remote store and the browser dialogs answer arrives as
    parameters. */
module TodoScreen {
  import opened JsString
  import opened TodoList

  datatype Option<T> = None | Some(value: T)

  /** The `alert` a handler raises, if any. */
  datatype Alert =
    | TodoDeleted        // "Todo deleted successfully."
    | TodoDeleteFailed   // "Error deleting todo. Please try again."
    | AllTodosDeleted    // "All todos have been permanently deleted."
    | AllTodosDeleteFailed  // "Error deleting todos. Please try again."

  /** JavaScript truthiness of the cursor, as tested by `if (editId)`:
      `null` and the empty string both mean "create". */
  predicate InUpdateMode(editId: Option<string>) {
    editId.Some? && editId.value != ""
  }

  class TodoApp {
    var todos: seq<Todo>
    var input: string
    var editId: Option<string>
    /** Every value passed to `setTodos`, oldest first, so that the
        optimistic and rollback writes are stated and not only the last.
        These are calls, not renders: React may batch writes made in one
        tick, so an intermediate value need not ever be shown. */
    ghost var setTodosCalls: seq<seq<Todo>>

    /** The three `useState` calls: an empty list, an empty input and no
        cursor. */
    constructor ()
      ensures todos == [] && input == "" && editId == None && setTodosCalls == []
    {
      todos := [];
      input := "";
      editId := None;
      setTodosCalls := [];
    }

    /** `setTodos(value)`. */
    method SetTodos(value: seq<Todo>)
      modifies this
      ensures todos == value && setTodosCalls == old(setTodosCalls) + [value]
      ensures input == old(input) && editId == old(editId)
    {
      todos := value;
      setTodosCalls := setTodosCalls + [value];
    }

    /** The initial fetch: `fetched` is what the store returned, in its
        order, or `None` when the fetch rejected (then nothing is set). */
    method Load(fetched: Option<seq<Todo>>)
      modifies this
      ensures todos == if fetched.Some? then fetched.value else old(todos)
      ensures setTodosCalls == old(setTodosCalls) + if fetched.Some? then [fetched.value] else []
      ensures input == old(input) && editId == old(editId)
    {
      if fetched.Some? {
        SetTodos(fetched.value);
      }
    }

    /** The text field's `onChange`: the input cell takes the field's value. */
    method ChangeInput(value: string)
      modifies this
      ensures input == value
      ensures todos == old(todos) && editId == old(editId) && setTodosCalls == old(setTodosCalls)
    {
      input := value;
    }

    /** `addTodo`, the Add/Update button.
        - `tempId` is the clock-derived placeholder id of a new item;
        - `updateOk` says whether the awaited `updateDoc` resolved (update
          mode); when it rejects, the rest of the handler does not run;
        - `storedId` is the id `addDoc` resolved with, or `None` when it
          rejected (create mode); again the rest of the handler is skipped.
        In create mode the final `setTodos` maps the snapshot, which does
        not hold the placeholder item, so a successful create leaves the
        pre-call list behind. */
    method AddTodo(tempId: string, updateOk: bool, storedId: Option<string>)
      modifies this
      // blank input: nothing happens
      ensures IsBlank(old(input)) ==>
        todos == old(todos) && input == old(input) && editId == old(editId) && setTodosCalls == old(setTodosCalls)
      // update mode
      ensures !IsBlank(old(input)) && InUpdateMode(old(editId)) ==>
        if updateOk then
          && todos == ReplaceText(old(todos), old(editId).value, old(input))
          && setTodosCalls == old(setTodosCalls) + [todos]
          && editId == None && input == ""
        else
          todos == old(todos) && input == old(input) && editId == old(editId) && setTodosCalls == old(setTodosCalls)
      // create mode: the optimistic append, then the reconciliation from the snapshot
      ensures !IsBlank(old(input)) && !InUpdateMode(old(editId)) ==>
        && editId == old(editId)
        && if storedId.Some? then
             && todos == RenameId(old(todos), tempId, storedId.value)
             && setTodosCalls == old(setTodosCalls) + [old(todos) + [Todo(tempId, old(input))], todos]
             && input == ""
           else
             && todos == old(todos) + [Todo(tempId, old(input))]
             && setTodosCalls == old(setTodosCalls) + [todos]
             && input == old(input)
      // with a placeholder no item already has, the created item is gone
      // from the list again once the store answers
      ensures !IsBlank(old(input)) && !InUpdateMode(old(editId)) && storedId.Some? && tempId !in Ids(old(todos)) ==>
        todos == old(todos)
      // ids stay unique as long as the placeholder is new
      ensures UniqueIds(old(todos)) && tempId !in Ids(old(todos)) ==> UniqueIds(todos)
    {
      if !IsBlank(input) {
        if InUpdateMode(editId) {
          SaveEdit(updateOk);
        } else {
          SaveNew(tempId, storedId);
        }
      }
    }

    /** The update branch of `addTodo`: the cursor's item takes the input
        text once `updateDoc` has resolved; a rejection ends the handler
        before any state is set. */
    method SaveEdit(updateOk: bool)
      requires InUpdateMode(editId)
      modifies this
      ensures updateOk ==>
        && todos == ReplaceText(old(todos), old(editId).value, old(input))
        && setTodosCalls == old(setTodosCalls) + [todos]
        && editId == None && input == ""
      ensures !updateOk ==>
        todos == old(todos) && input == old(input) && editId == old(editId) && setTodosCalls == old(setTodosCalls)
      ensures UniqueIds(old(todos)) ==> UniqueIds(todos)
    {
      var snapshot, text, cursor := todos, input, editId;
      if updateOk {
        ReplaceTextKeepsIds(snapshot, cursor.value, text);
        SetTodos(ReplaceText(snapshot, cursor.value, text));
        editId := None;
        input := "";
      }
    }

    /** The create branch of `addTodo`: the optimistic append, then, once
        `addDoc` has resolved, the rename applied to the snapshot. A
        rejection ends the handler with the optimistic list shown. */
    method SaveNew(tempId: string, storedId: Option<string>)
      modifies this
      ensures editId == old(editId)
      ensures storedId.Some? ==>
        && todos == RenameId(old(todos), tempId, storedId.value)
        && setTodosCalls == old(setTodosCalls) + [old(todos) + [Todo(tempId, old(input))], todos]
        && input == ""
      ensures storedId.None? ==>
        && todos == old(todos) + [Todo(tempId, old(input))]
        && setTodosCalls == old(setTodosCalls) + [todos]
        && input == old(input)
      ensures storedId.Some? && tempId !in Ids(old(todos)) ==> todos == old(todos)
      ensures UniqueIds(old(todos)) && tempId !in Ids(old(todos)) ==> UniqueIds(todos)
    {
      var snapshot, text := todos, input;
      var newTodo := Todo(tempId, text);
      if UniqueIds(snapshot) && tempId !in Ids(snapshot) {
        AppendFreshKeepsUniqueIds(snapshot, newTodo);
      }
      SetTodos(snapshot + [newTodo]);
      if storedId.Some? {
        if tempId !in Ids(snapshot) {
          RenameIdAbsent(snapshot, newTodo.id, storedId.value);
        }
        SetTodos(RenameId(snapshot, newTodo.id, storedId.value));
        input := "";
      }
    }

    /** `editTodo`, an item's Edit button. `answer` is what `prompt`
        returned (`None` for a cancelled dialog). The `updateDoc` call is
        not awaited, so its outcome never reaches the list. */
    method EditTodo(id: string, answer: Option<string>)
      modifies this
      ensures answer.Some? && !IsBlank(answer.value) ==>
        todos == ReplaceText(old(todos), id, answer.value) && setTodosCalls == old(setTodosCalls) + [todos]
      ensures answer.None? || IsBlank(answer.value) ==>
        todos == old(todos) && setTodosCalls == old(setTodosCalls)
      ensures UniqueIds(old(todos)) ==> UniqueIds(todos)
      ensures input == old(input) && editId == old(editId)
    {
      if answer.Some? && !IsBlank(answer.value) {
        ReplaceTextKeepsIds(todos, id, answer.value);
        SetTodos(ReplaceText(todos, id, answer.value));
      }
    }

    /** `deleteTodo`, an item's Delete button. The item is filtered out
        before the user is asked; `confirmed` is the `window.confirm`
        answer and `deleteOk` whether the awaited `deleteDoc` resolved.
        A declined dialog or a failed delete puts back the snapshot. */
    method DeleteTodo(id: string, confirmed: bool, deleteOk: bool) returns (alert: Option<Alert>)
      modifies this
      ensures confirmed && deleteOk ==>
        todos == RemoveId(old(todos), id) && setTodosCalls == old(setTodosCalls) + [todos]
      ensures !(confirmed && deleteOk) ==>
        todos == old(todos) && setTodosCalls == old(setTodosCalls) + [RemoveId(old(todos), id), old(todos)]
      ensures alert == if !confirmed then None else if deleteOk then Some(TodoDeleted) else Some(TodoDeleteFailed)
      ensures UniqueIds(old(todos)) ==> UniqueIds(todos)
      ensures input == old(input) && editId == old(editId)
    {
      var snapshot := todos;
      if UniqueIds(snapshot) {
        RemoveIdKeepsUniqueIds(snapshot, id);
      }
      var updatedTodos := RemoveId(snapshot, id);
      SetTodos(updatedTodos);
      if confirmed {
        if deleteOk {
          alert := Some(TodoDeleted);
        } else {
          SetTodos(snapshot);
          alert := Some(TodoDeleteFailed);
        }
      } else {
        SetTodos(snapshot);
        alert := None;
      }
    }

    /** `deleteAllTodos`, the Delete All button. `confirmed` is the
        `window.confirm` answer and `allOk` whether the fetch and every one
        of the deletes resolved. The list is cleared only on full success
        and is never rolled back, since it is never touched before. */
    method DeleteAllTodos(confirmed: bool, allOk: bool) returns (alert: Option<Alert>)
      modifies this
      ensures confirmed && allOk ==> todos == [] && setTodosCalls == old(setTodosCalls) + [[]]
      ensures !(confirmed && allOk) ==> todos == old(todos) && setTodosCalls == old(setTodosCalls)
      ensures alert == if !confirmed then None else if allOk then Some(AllTodosDeleted) else Some(AllTodosDeleteFailed)
      ensures input == old(input) && editId == old(editId)
    {
      alert := None;
      if confirmed {
        if allOk {
          SetTodos([]);
          alert := Some(AllTodosDeleted);
        } else {
          alert := Some(AllTodosDeleteFailed);
        }
      }
    }
  }

  /** Sample call sequences, checked through the handlers' contracts
      alone. A successful create of a non-blank `text`: the store
      answers with `storedId`, yet the list ends as it began. */
  method CreateScenario(text: string, tempId: string, storedId: string)
    requires !IsBlank(text) && tempId != "1"
  {
    var app := new TodoApp();
    app.Load(Some([Todo("1", "milk")]));
    app.ChangeInput(text);
    assert Ids(app.todos) == ["1"];
    app.AddTodo(tempId, true, Some(storedId));
    assert app.todos == [Todo("1", "milk")] && app.input == "";
  }

  /** A whitespace-only input is ignored. */
  method BlankInputScenario() {
    var app := new TodoApp();
    app.Load(Some([Todo("1", "milk")]));
    app.ChangeInput(" \t");
    assert IsBlank(" \t") by {
      BlankIffAllWhitespace(" \t");
    }
    app.AddTodo("1700000000001", true, Some("3"));
    assert app.todos == [Todo("1", "milk")] && app.input == " \t";
  }

  /** The prompt-based edit of item "1" to a non-blank `text` rewrites its
      text in place; a delete whose store call fails puts the item back; a
      confirmed, successful delete-all empties the list. */
  method EditDeleteScenario(text: string)
    requires !IsBlank(text)
  {
    var app := new TodoApp();
    app.Load(Some([Todo("1", "milk")]));
    app.EditTodo("1", Some(text));
    assert app.todos == [Todo("1", text)];
    var alert := app.DeleteTodo("1", true, false);
    assert app.todos == [Todo("1", text)] && alert == Some(TodoDeleteFailed);
    alert := app.DeleteAllTodos(true, true);
    assert app.todos == [] && alert == Some(AllTodosDeleted);
  }
}
