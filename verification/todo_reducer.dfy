/** The list reducer of the todo app: a pure map from (current list, action) to
    the next list. Nothing here mutates its input; every operation builds a
    new sequence, as the JavaScript spread, `map` and `filter` do. */
module TodoReducer {

  /** One task item. `id` is the only lookup key the reducer uses. */
  datatype Todo = Todo(id: int, text: string, done: bool)

  /** The actions the reducer switches on: `action.type` selects the
      constructor, `action.payload` supplies its fields. Any other type string
      is `Unrecognised`; an `Unrecognised` whose `kind` is one of the four
      known type strings stands for no action the code can receive, which
      `WellFormed` excludes. */
  datatype Action =
    | Add(text: string)
    | Toggle(id: int)
    | Delete(id: int)
    | Edit(id: int, text: string)
    | Unrecognised(kind: string)
  {
    /** The action's `type` string is the one its constructor stands for. */
    predicate WellFormed() {
      Unrecognised? ==> kind !in KnownTypes
    }
  }

  /** The type strings the reducer has a case for. */
  const KnownTypes: set<string> := {"add", "toggle", "delete", "edit"}

  /** Some item of the list carries `id`. */
  predicate HasId(todos: seq<Todo>, id: int) {
    exists i :: 0 <= i < |todos| && todos[i].id == id
  }

  /** No two items of the list share an id. */
  predicate UniqueIds(todos: seq<Todo>) {
    forall i, j :: 0 <= i < j < |todos| ==> todos[i].id != todos[j].id
  }

  /** The ids of the items, in list order. */
  function Ids(todos: seq<Todo>): seq<int> {
    seq(|todos|, i requires 0 <= i < |todos| => todos[i].id)
  }

  /** The texts of the items, in list order. */
  function Texts(todos: seq<Todo>): seq<string> {
    seq(|todos|, i requires 0 <= i < |todos| => todos[i].text)
  }

  /** The number of items whose id is `id`. */
  function CountId(todos: seq<Todo>, id: int): (n: nat)
    ensures n <= |todos|
    ensures n == 0 <==> !HasId(todos, id)
  {
    if todos == [] then 0
    else
      assert forall i :: 0 <= i < |todos| - 1 ==> todos[1..][i] == todos[i + 1];
      assert HasId(todos, id) <==> todos[0].id == id || HasId(todos[1..], id);
      (if todos[0].id == id then 1 else 0) + CountId(todos[1..], id)
  }

  /** `a` occurs in `b` in order, possibly with gaps (greedy matching). */
  predicate IsSubsequence(a: seq<Todo>, b: seq<Todo>)
    decreases |b|
  {
    if a == [] then true
    else if b == [] then false
    else if a[0] == b[0] then IsSubsequence(a[1..], b[1..])
    else IsSubsequence(a, b[1..])
  }

  /** `Array.prototype.map` over the list. */
  function MapTodos(todos: seq<Todo>, f: Todo -> Todo): (r: seq<Todo>)
    ensures |r| == |todos|
    ensures forall i :: 0 <= i < |todos| ==> r[i] == f(todos[i])
  {
    if todos == [] then [] else [f(todos[0])] + MapTodos(todos[1..], f)
  }

  /** `add`: append a fresh item with the given text, not done, with the id
      the caller read from the clock. */
  function AddTodo(todos: seq<Todo>, text: string, id: int): (r: seq<Todo>)
    ensures |r| == |todos| + 1
    ensures r[..|todos|] == todos
    ensures r[|todos|] == Todo(id, text, false)
  {
    todos + [Todo(id, text, false)]
  }

  /** `toggle`: flip `done` on every item whose id matches. */
  function ToggleTodos(todos: seq<Todo>, id: int): (r: seq<Todo>)
    ensures |r| == |todos|
    ensures forall i :: 0 <= i < |todos| ==>
              r[i].id == todos[i].id && r[i].text == todos[i].text &&
              r[i].done == (todos[i].done != (todos[i].id == id))
  {
    MapTodos(todos, (t: Todo) => if t.id == id then t.(done := !t.done) else t)
  }

  /** `edit`: set the text of every item whose id matches. */
  function EditTodos(todos: seq<Todo>, id: int, text: string): (r: seq<Todo>)
    ensures |r| == |todos|
    ensures forall i :: 0 <= i < |todos| ==>
              r[i].id == todos[i].id && r[i].done == todos[i].done &&
              r[i].text == (if todos[i].id == id then text else todos[i].text)
  {
    MapTodos(todos, (t: Todo) => if t.id == id then t.(text := text) else t)
  }

  /** `delete`: drop every item whose id matches. */
  function DeleteTodos(todos: seq<Todo>, id: int): (r: seq<Todo>)
    ensures |r| == |todos| - CountId(todos, id)
    ensures forall i :: 0 <= i < |r| ==> r[i].id != id
  {
    if todos == [] then []
    else if todos[0].id == id then DeleteTodos(todos[1..], id)
    else [todos[0]] + DeleteTodos(todos[1..], id)
  }

  /** The reducer itself. `now` stands for the `Date.now()` read by `add`. */
  function Reduce(todos: seq<Todo>, action: Action, now: int): (r: seq<Todo>)
    ensures action.Add? ==> |r| == |todos| + 1 && r[..|todos|] == todos &&
                            r[|todos|] == Todo(now, action.text, false)
    ensures !action.Add? ==> |r| <= |todos|
    ensures action.Toggle? || action.Edit? || action.Unrecognised? ==> Ids(r) == Ids(todos)
    ensures action.Unrecognised? ==> r == todos
  {
    match action
    case Add(text) => AddTodo(todos, text, now)
    case Toggle(id) => ToggleTodos(todos, id)
    case Delete(id) => DeleteTodos(todos, id)
    case Edit(id, text) => EditTodos(todos, id, text)
    case Unrecognised(_) => todos
  }

  // ---------------------------------------------------------------------
  // Properties of the reducer

  /** Toggling the same id twice gives back the original list. */
  lemma ToggleTwice(todos: seq<Todo>, id: int)
    ensures ToggleTodos(ToggleTodos(todos, id), id) == todos
  {
  }

  /** What `delete` keeps appears in the input in the same order. */
  lemma {:induction false} DeleteKeepsOrder(todos: seq<Todo>, id: int)
    ensures IsSubsequence(DeleteTodos(todos, id), todos)
  {
    if todos != [] {
      DeleteKeepsOrder(todos[1..], id);
      var rest := DeleteTodos(todos[1..], id);
      if todos[0].id == id {
        assert rest != [] ==> rest[0] != todos[0];
      } else {
        assert ([todos[0]] + rest)[1..] == rest;
      }
    }
  }

  /** `delete` keeps every item whose id differs as often as it occurs, and
      no item whose id matches. */
  lemma {:induction false} DeleteMultiset(todos: seq<Todo>, id: int)
    ensures forall t :: multiset(DeleteTodos(todos, id))[t] ==
                        if t.id == id then 0 else multiset(todos)[t]
  {
    if todos != [] {
      DeleteMultiset(todos[1..], id);
      assert todos == [todos[0]] + todos[1..];
      assert multiset(todos) == multiset{todos[0]} + multiset(todos[1..]);
    }
  }

  /** With no item carrying `id`, toggle, edit and delete return the input. */
  lemma {:induction false} AbsentIdIsNoOp(todos: seq<Todo>, id: int, text: string)
    requires !HasId(todos, id)
    ensures ToggleTodos(todos, id) == todos
    ensures EditTodos(todos, id, text) == todos
    ensures DeleteTodos(todos, id) == todos
  {
    var t, e := ToggleTodos(todos, id), EditTodos(todos, id, text);
    forall i | 0 <= i < |todos| ensures t[i] == todos[i] && e[i] == todos[i] {
      assert todos[i].id != id;
    }
    if todos != [] {
      assert todos[0].id != id;
      assert !HasId(todos[1..], id) by {
        forall i | 0 <= i < |todos| - 1 ensures todos[1..][i].id != id {
          assert todos[1..][i] == todos[i + 1];
        }
      }
      AbsentIdIsNoOp(todos[1..], id, text);
      assert todos == [todos[0]] + todos[1..];
    }
  }

  /** The reducer in terms of its actions: an id no item carries leaves the
      list as it was, whichever of toggle, edit or delete is sent. */
  lemma ReduceAbsentId(todos: seq<Todo>, action: Action, now: int)
    requires action.Toggle? || action.Delete? || action.Edit?
    requires !HasId(todos, action.id)
    ensures Reduce(todos, action, now) == todos
  {
    AbsentIdIsNoOp(todos, action.id, if action.Edit? then action.text else "");
  }

  /** In a list with unique ids an id occurs at most once. */
  lemma {:induction false} CountIdUnique(todos: seq<Todo>, id: int)
    requires UniqueIds(todos)
    ensures CountId(todos, id) <= 1
  {
    if todos != [] {
      assert UniqueIds(todos[1..]) by {
        forall i, j | 0 <= i < j < |todos| - 1 ensures todos[1..][i].id != todos[1..][j].id {
          assert todos[1..][i] == todos[i + 1] && todos[1..][j] == todos[j + 1];
        }
      }
      CountIdUnique(todos[1..], id);
      if todos[0].id == id {
        assert !HasId(todos[1..], id) by {
          forall i | 0 <= i < |todos| - 1 ensures todos[1..][i].id != id {
            assert todos[1..][i] == todos[i + 1];
          }
        }
      }
    }
  }

  /** Deleting an id that is present in a list with unique ids removes
      exactly one item. */
  lemma {:induction false} DeletePresentUnique(todos: seq<Todo>, id: int)
    requires UniqueIds(todos) && HasId(todos, id)
    ensures |DeleteTodos(todos, id)| == |todos| - 1
    ensures !HasId(DeleteTodos(todos, id), id)
  {
    CountIdUnique(todos, id);
  }

  /** Deleting introduces no id that was not already in the list. */
  lemma DeleteHasIdOnlyFromInput(todos: seq<Todo>, id: int, x: int)
    requires HasId(DeleteTodos(todos, id), x)
    ensures HasId(todos, x)
  {
    var r := DeleteTodos(todos, id);
    DeleteMultiset(todos, id);
    var k :| 0 <= k < |r| && r[k].id == x;
    var t := r[k];
    assert t in multiset(r);
    assert t in multiset(todos);
    var m :| 0 <= m < |todos| && todos[m] == t;
  }

  /** Deleting keeps the ids unique. */
  lemma {:induction false} DeleteKeepsUniqueIds(todos: seq<Todo>, id: int)
    requires UniqueIds(todos)
    ensures UniqueIds(DeleteTodos(todos, id))
  {
    if todos != [] {
      var tail := todos[1..];
      assert UniqueIds(tail) by {
        forall i, j | 0 <= i < j < |tail| ensures tail[i].id != tail[j].id {
          assert tail[i] == todos[i + 1] && tail[j] == todos[j + 1];
        }
      }
      DeleteKeepsUniqueIds(tail, id);
      var rest := DeleteTodos(tail, id);
      if todos[0].id != id {
        assert !HasId(tail, todos[0].id) by {
          forall m | 0 <= m < |tail| ensures tail[m].id != todos[0].id {
            assert tail[m] == todos[m + 1];
          }
        }
        if HasId(rest, todos[0].id) {
          DeleteHasIdOnlyFromInput(tail, id, todos[0].id);
        }
        ConsKeepsUniqueIds(todos[0], rest);
        assert DeleteTodos(todos, id) == [todos[0]] + rest;
      } else {
        assert DeleteTodos(todos, id) == rest;
      }
    }
  }

  /** Putting an item with a fresh id in front keeps the ids unique. */
  lemma ConsKeepsUniqueIds(t: Todo, todos: seq<Todo>)
    requires UniqueIds(todos) && !HasId(todos, t.id)
    ensures UniqueIds([t] + todos)
  {
  }

  /** Adding keeps the ids of a unique list unique exactly when the clock
      reading is not already used as an id. */
  lemma AddKeepsUniqueIdsIff(todos: seq<Todo>, text: string, id: int)
    requires UniqueIds(todos)
    ensures UniqueIds(AddTodo(todos, text, id)) <==> !HasId(todos, id)
  {
  }

  /** Two `add`s in the same clock tick produce two items with the same id. */
  lemma SameTickAddsCollide(todos: seq<Todo>, a: string, b: string, now: int)
    ensures !UniqueIds(AddTodo(AddTodo(todos, a, now), b, now))
  {
  }

  /** The id invariant of the item list survives every action, provided an
      `add` reads a clock value no item already uses. */
  lemma ReduceKeepsUniqueIds(todos: seq<Todo>, action: Action, now: int)
    requires UniqueIds(todos)
    requires action.Add? ==> !HasId(todos, now)
    ensures UniqueIds(Reduce(todos, action, now))
  {
    match action
    case Add(text) => AddKeepsUniqueIdsIff(todos, text, now);
    case Toggle(id) =>
      var r := Reduce(todos, action, now);
      assert forall i :: 0 <= i < |r| ==> r[i].id == todos[i].id;
    case Delete(id) => DeleteKeepsUniqueIds(todos, id);
    case Edit(id, text) =>
      var r := Reduce(todos, action, now);
      assert forall i :: 0 <= i < |r| ==> r[i].id == todos[i].id;
    case Unrecognised(_) =>
  }
}
