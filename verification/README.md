# Todo-App list reducer and form logic, in Dafny

This project models the logic of a single-page todo-list editor written with
React. The model covers the part that decides what happens to the list.

- `TodoReducer` (todo_reducer.dfy) is the reducer `todoReducer`. It maps a
  list of items `Todo(id, text, done)` and an action (`add`, `toggle`,
  `delete`, `edit` or an unrecognised type) to a new list. `add` appends,
  `toggle` and `edit` map over the list, `delete` filters it, and anything
  else returns the list unchanged. The lemmas prove the following:
  - toggling the same id twice is the identity;
  - an absent id makes toggle, edit and delete no-ops;
  - delete removes every matching item, keeps the rest in order, and removes
    exactly one item when ids are unique and an item has that id;
  - the unique-id invariant survives every action when `add` gets an unused
    clock value, and two adds in the same clock tick collide.
- `JsString` (js_string.dfy) is `String.prototype.trim`, using the white space
  and line terminators of the ECMAScript standard (ECMA-262). The submit
  handler only needs one fact from it: the trimmed input is empty exactly
  when the input is all white space.
- `Persistence` (persistence.dfy) is the load at mount time as a pure fold.
  The stored list is replayed through `add` using only each item's text.
  The lemmas prove three things about a reload:
  - it keeps texts and order, takes fresh ids from the clock and clears every
    `done` flag;
  - the save/load round trip gives back the saved list exactly when no item
    was done and the clock happens to return the saved ids;
  - the reloaded ids are unique exactly when the clock readings are distinct.
- `TodoApp` (todo_app.dfy) holds class `App`, the component's state cells
  `todos`, `input` and `editId` plus the stored snapshot. Its methods are
  `Dispatch`, the input's change handler, the edit button, the submit handler
  `Submit`, the load loop `Load` and the save effect `Save`. `Submit` is
  specified case by case: a blank input changes nothing; editing sends `edit`
  and leaves edit mode; otherwise it sends `add`. `Load` is a loop proved
  equal to the fold in `Persistence`.

How the environment is represented:

- Each `Date.now()` read is a parameter: `now` for one `add`, and `clock` for
  the sequence of reads during a load.
- Local storage and JSON are represented by the field
  `storage: Option<seq<Todo>>`. `None` means nothing is stored, where
  `JSON.parse` yields `null`. Serialisation is the identity.

Points where the code's behaviour is easy to misread:

- A reload restores neither `id` nor `done`. The code replays only the text
  (src/App.jsx:35), and `ReloadRoundTripIff` states when the round trip is
  lossless.
- `toggle`, `edit` and `delete` act on every item with the id, not only the
  first, because the code uses `map` and `filter` (src/App.jsx:9-19).
- The code does not guarantee unique ids, because ids come from the clock
  (src/App.jsx:7). In the model uniqueness is a precondition of
  `ReduceKeepsUniqueIds`, and `SameTickAddsCollide` shows how it fails.
- `if (editId)` is JavaScript truthiness, so an `editId` of 0 counts as "not
  editing". In that branch the code never resets `editId` (src/App.jsx:49-54).
  `Editing` and `Submit`'s third `ensures` say exactly this.
- Both `add` and `edit` send the untrimmed input. `trim` is used only for the
  blank check (src/App.jsx:47-53).

## Model

| member | source | states |
|---|---|---|
| `TodoReducer.Reduce` | src/App.jsx:4-23 | `add` appends one item with the clock id, the given text and `done = false`, and keeps the prefix. Every other action never lengthens the list. Toggle, edit and unrecognised actions keep the id sequence. An unrecognised type returns the input unchanged. |
| `TodoReducer.AddTodo` | src/App.jsx:6-7 | The result is one longer, its prefix is the input, and its last item is `Todo(id, text, false)`. |
| `TodoReducer.MapTodos` | src/App.jsx:9-11 | `Array.prototype.map`: same length, and item i of the result is `f` applied to item i of the input. |
| `TodoReducer.ToggleTodos` | src/App.jsx:8-11 | Length, order, ids and texts are kept. `done` flips on exactly the items whose id matches. |
| `TodoReducer.EditTodos` | src/App.jsx:14-19 | Length, order, ids and `done` are kept. Every matching item gets the payload text, and every other item keeps its text. |
| `TodoReducer.DeleteTodos` | src/App.jsx:12-13 | No item of the result has the deleted id, and its length is the input length minus the number of items with that id. |
| `TodoReducer.DeleteKeepsOrder` | src/App.jsx:13 | The items `delete` keeps form a subsequence of the input, in their original relative order. |
| `TodoReducer.DeleteMultiset` | src/App.jsx:13 | Every item whose id differs keeps its number of occurrences, and no item with the deleted id remains. |
| `TodoReducer.ToggleTwice` | src/App.jsx:8-11 | Toggling the same id twice gives back the original list. |
| `TodoReducer.AbsentIdIsNoOp` | src/App.jsx:8-19 | If no item has the id, toggle, edit and delete each return the input list. |
| `TodoReducer.ReduceAbsentId` | src/App.jsx:5-19 | A toggle, delete or edit action whose id no item carries leaves the list unchanged. |
| `TodoReducer.DeletePresentUnique` | src/App.jsx:12-13 | With unique ids, deleting a present id removes exactly one item and leaves no item with that id. |
| `TodoReducer.DeleteKeepsUniqueIds` | src/App.jsx:12-13 | Deleting keeps the ids unique. |
| `TodoReducer.AddKeepsUniqueIdsIff` | src/App.jsx:6-7 | On a list with unique ids, `add` keeps them unique if and only if the clock value is not already an id. |
| `TodoReducer.SameTickAddsCollide` | src/App.jsx:7 | Two adds with the same clock reading produce a list with a duplicate id. |
| `TodoReducer.ReduceKeepsUniqueIds` | src/App.jsx:4-23 | Every action preserves unique ids, provided an `add` uses a clock value that is not in the list. |
| `JsString.SkipForward` | src/App.jsx:47 | The returned index ends the leading white space: everything before it from the start index is white space, and the character at it is not. |
| `JsString.SkipBackward` | src/App.jsx:47 | The returned index starts the trailing white space: everything from it to the end index is white space, and the character before it is not. |
| `JsString.Trim` | src/App.jsx:47 | `input.trim()` is the slice of the input between its leading and trailing white space. Everything cut off is white space, and a non-empty result neither starts nor ends with white space. |
| `JsString.TrimEmptyIffBlank` | src/App.jsx:47 | `input.trim()` is empty (falsy) exactly when every character of the input is white space. |
| `Persistence.ReplayOnto` | src/App.jsx:34-35 | Replaying stored items through `add` keeps the current list as a prefix and appends one item per stored item, in order. Item k gets clock reading k, the stored text and `done = false`. |
| `Persistence.ReloadKeepsOnlyTexts` | src/App.jsx:27-35 | A reload onto the initial empty list has the stored texts in order, its ids are the clock readings, and no item is done. |
| `Persistence.ReloadRoundTripIff` | src/App.jsx:32-42 | Saving a list and reloading it gives back that list if and only if no item was done and the clock returns the saved ids. |
| `Persistence.ReloadLosesDone` | src/App.jsx:35 | A saved completed item reloads as `done = false`, with the new clock id. |
| `Persistence.ReloadUniqueIdsIff` | src/App.jsx:7-35 | The reloaded list has unique ids if and only if the clock readings are pairwise distinct. |
| `TodoApp.App.constructor` | src/App.jsx:27-29 | The initial state is an empty list, an empty input and no edit id. |
| `TodoApp.App.Dispatch` | src/App.jsx:27 | `dispatch` replaces the list with the reducer's result on the old list. |
| `TodoApp.App.ChangeInput` | src/App.jsx:93 | The input cell takes the typed value. |
| `TodoApp.App.StartEdit` | src/App.jsx:150-153 | The edit button puts the item's text in the input and its id in `editId`. |
| `TodoApp.App.Submit` | src/App.jsx:45-57 | A blank input leaves the list, the input and the edit id unchanged. Otherwise, with a truthy edit id, the list becomes `edit` of that id with the input text and the edit id becomes null. With no truthy edit id, the list becomes `add` of the input with the clock id and the edit id stays as it was. In both non-blank cases the input becomes `""`. |
| `TodoApp.App.Load` | src/App.jsx:32-37 | When something is stored, the loop dispatches `add` once per stored item, and the new list equals `ReplayOnto` of the old list. When nothing is stored, the list is unchanged. |
| `TodoApp.App.Save` | src/App.jsx:40-42 | The stored snapshot becomes the whole current list. |

## Left out

- The JSX markup and inline styles (src/App.jsx:59-183) are presentation only. The toggle and delete buttons (lines 143 and 166) are plain `Dispatch` calls, and the button label (line 121) only displays state.
- `localStorage.getItem`/`setItem` and `JSON.parse`/`JSON.stringify` are foreign calls. They are replaced by the `storage` field, with serialisation as the identity. Malformed stored data, which makes `JSON.parse` or `forEach` throw, is not modelled because the code does not handle it.
- `Date.now()` is a clock read. It becomes the `now` and `clock` parameters. Ids are unbounded integers, and the clock's range and monotonicity are not modelled.
- React hook scheduling is framework runtime behaviour, not code in this repository, so none of it is modelled:
  - the order in which effects run;
  - the save effect also running on mount with the empty list;
  - the automatic save after each change, which here is an explicit `Save` call;
  - render batching;
  - StrictMode running the load effect twice.
- `e.preventDefault()` (src/App.jsx:46) is a browser event call with no effect on the state.
- Action objects with a missing or ill-typed payload cannot occur: `Action` is a datatype with one constructor per action type. A value `Unrecognised(k)` with `k` one of `"add"`, `"toggle"`, `"delete"` or `"edit"` stands for no action the code can receive; `Action.WellFormed` excludes it.
- vite.config.js is build configuration with no logic.
