/** The `App` component's state and the handlers that change it: the three
    state cells `todos`, `input` and `editId`, plus the "todos" slot of local
    storage. Every change of `todos` goes through the reducer. */
module TodoApp {
  import opened TodoReducer
  import opened JsString
  import opened Persistence

  datatype Option<T> = None | Some(value: T)

  /** JavaScript truthiness of the `editId` cell: `null` and the number 0
      are both falsy. */
  predicate Editing(editId: Option<int>) {
    editId.Some? && editId.value != 0
  }

  class App {
    var todos: seq<Todo>
    var input: string
    var editId: Option<int>
    /** The stored snapshot; `None` when nothing is stored, so that the
        parsed value is `null`. Serialisation is the identity here. */
    var storage: Option<seq<Todo>>

    /** The initial state: an empty list, an empty input, not editing. */
    constructor (storage: Option<seq<Todo>>)
      ensures todos == [] && input == "" && editId == None
      ensures this.storage == storage
    {
      todos := [];
      input := "";
      editId := None;
      this.storage := storage;
    }

    /** `dispatch(action)`, with `now` the clock value an `add` reads. */
    method Dispatch(action: Action, now: int)
      modifies this`todos
      ensures todos == Reduce(old(todos), action, now)
    {
      todos := Reduce(todos, action, now);
    }

    /** The input field's change handler. */
    method ChangeInput(value: string)
      modifies this`input
      ensures input == value
    {
      input := value;
    }

    /** The edit button of an item: put its text in the input and remember
        its id. */
    method StartEdit(todo: Todo)
      modifies this`input, this`editId
      ensures input == todo.text && editId == Some(todo.id)
    {
      input := todo.text;
      editId := Some(todo.id);
    }

    /** The form's submit handler. A blank input changes nothing. Otherwise
        the untrimmed input is sent as an `edit` of the remembered id when
        editing, which also leaves edit mode, or as an `add`; then the input
        is cleared. */
    method Submit(now: int)
      modifies this`todos, this`input, this`editId
      ensures IsBlank(old(input)) ==>
                todos == old(todos) && input == old(input) && editId == old(editId)
      ensures !IsBlank(old(input)) && Editing(old(editId)) ==>
                todos == EditTodos(old(todos), old(editId).value, old(input)) &&
                input == "" && editId == None
      ensures !IsBlank(old(input)) && !Editing(old(editId)) ==>
                todos == AddTodo(old(todos), old(input), now) &&
                input == "" && editId == old(editId)
    {
      TrimEmptyIffBlank(input);
      if Trim(input) == [] {
        return;
      }
      if Editing(editId) {
        ghost var expected := EditTodos(todos, editId.value, input);
        Dispatch(Edit(editId.value, input), now);
        assert todos == expected;
        editId := None;
      } else {
        ghost var expected := AddTodo(todos, input, now);
        Dispatch(Add(input), now);
        assert todos == expected;
      }
      input := "";
    }

    /** The mount-time load: when something is stored, dispatch `add` with
        each stored item's text in turn; `clock[k]` is what the k-th `add`
        reads from the clock. */
    method Load(clock: seq<int>)
      requires storage.Some? ==> |clock| == |storage.value|
      modifies this`todos
      ensures storage.Some? ==> todos == ReplayOnto(old(todos), storage.value, clock)
      ensures storage.None? ==> todos == old(todos)
    {
      if storage.Some? {
        var stored := storage.value;
        var i := 0;
        while i < |stored|
          invariant 0 <= i <= |stored|
          invariant todos == ReplayOnto(old(todos), stored[..i], clock[..i])
        {
          assert stored[..i + 1][..i] == stored[..i] && clock[..i + 1][..i] == clock[..i];
          Dispatch(Add(stored[i].text), clock[i]);
          i := i + 1;
        }
        assert stored[..i] == stored && clock[..i] == clock;
      }
    }

    /** The save effect: overwrite the stored snapshot with the whole list. */
    method Save()
      modifies this`storage
      ensures storage == Some(todos)
    {
      storage := Some(todos);
    }
  }

  /** A session through the form: add an item, complete it, then rename it
      through the edit button; renaming keeps it done and leaves edit mode. */
  method EditThroughForm(t1: int, t2: int)
    requires t1 != 0
  {
    var app := new App(None);
    app.ChangeInput("Buy milk");
    assert !IsBlank(app.input) by { assert !IsWhitespace(app.input[0]); }
    app.Submit(t1);
    assert app.todos == AddTodo([], "Buy milk", t1) == [Todo(t1, "Buy milk", false)];
    app.Dispatch(Toggle(t1), t2);
    var item := app.todos[0];
    assert item == Todo(t1, "Buy milk", true);
    app.StartEdit(item);
    app.ChangeInput("Buy oat milk");
    assert !IsBlank(app.input) by { assert !IsWhitespace(app.input[0]); }
    assert Editing(app.editId);
    ghost var before := app.todos;
    app.Submit(t2);
    assert app.todos == EditTodos(before, t1, "Buy oat milk");
    assert app.todos == [Todo(t1, "Buy oat milk", true)];
    assert app.editId == None && app.input == "";
  }

  /** Saving a completed item and loading it in a new session brings it back
      not done and with the id read from the clock during the load. */
  method ReloadAfterSave(t1: int, t2: int)
  {
    var app := new App(None);
    app.Dispatch(Add("Buy milk"), t1);
    assert app.todos == [Todo(t1, "Buy milk", false)];
    app.Dispatch(Toggle(t1), t2);
    assert |app.todos| == 1 && app.todos[0] == Todo(t1, "Buy milk", true);
    assert app.todos == [Todo(t1, "Buy milk", true)];
    app.Save();
    assert app.storage == Some([Todo(t1, "Buy milk", true)]);
    var next := new App(app.storage);
    next.Load([t2]);
    ReloadLosesDone("Buy milk", t1, t2);
    assert next.todos == [Todo(t2, "Buy milk", false)];
  }
}
