/** What the mount-time load does with the stored list: it dispatches `add`
    once per stored item, in order, with only that item's text, each `add`
    reading the clock anew. `clock[k]` is the clock reading of the k-th
    dispatch. */
module Persistence {
  import opened TodoReducer

  /** The list after replaying `stored` through `add` onto `todos`. */
  function ReplayOnto(todos: seq<Todo>, stored: seq<Todo>, clock: seq<int>): (r: seq<Todo>)
    requires |clock| == |stored|
    ensures |r| == |todos| + |stored|
    ensures r[..|todos|] == todos
    ensures forall k :: 0 <= k < |stored| ==> r[|todos| + k] == Todo(clock[k], stored[k].text, false)
    decreases |stored|
  {
    if stored == [] then todos
    else
      var n := |stored| - 1;
      var prev := ReplayOnto(todos, stored[..n], clock[..n]);
      AddTodo(prev, stored[n].text, clock[n])
  }

  /** A reload onto the empty initial list keeps the texts and their order,
      takes its ids from the clock and clears every completion flag. */
  lemma ReloadKeepsOnlyTexts(stored: seq<Todo>, clock: seq<int>)
    requires |clock| == |stored|
    ensures Texts(ReplayOnto([], stored, clock)) == Texts(stored)
    ensures Ids(ReplayOnto([], stored, clock)) == clock
    ensures forall k :: 0 <= k < |stored| ==> !ReplayOnto([], stored, clock)[k].done
  {
  }

  /** The save/load round trip gives back the saved list exactly when no
      saved item was done and the clock happens to return the saved ids. */
  lemma ReloadRoundTripIff(saved: seq<Todo>, clock: seq<int>)
    requires |clock| == |saved|
    ensures ReplayOnto([], saved, clock) == saved <==>
            clock == Ids(saved) && forall k :: 0 <= k < |saved| ==> !saved[k].done
  {
  }

  /** A completed item comes back from a reload as not done. */
  lemma ReloadLosesDone(text: string, id: int, now: int)
    ensures ReplayOnto([], [Todo(id, text, true)], [now]) == [Todo(now, text, false)]
  {
  }

  /** The reloaded list has unique ids exactly when the clock readings are
      pairwise distinct. */
  lemma ReloadUniqueIdsIff(stored: seq<Todo>, clock: seq<int>)
    requires |clock| == |stored|
    ensures UniqueIds(ReplayOnto([], stored, clock)) <==>
            forall i, j :: 0 <= i < j < |clock| ==> clock[i] != clock[j]
  {
    var r := ReplayOnto([], stored, clock);
    ReloadKeepsOnlyTexts(stored, clock);
    var ids := Ids(r);
    assert ids == clock;
    if UniqueIds(r) {
      forall i, j | 0 <= i < j < |clock| ensures clock[i] != clock[j] {
        assert clock[i] == ids[i] == r[i].id && clock[j] == ids[j] == r[j].id;
      }
    } else {
      var i, j :| 0 <= i < j < |r| && r[i].id == r[j].id;
      assert clock[i] == ids[i] && clock[j] == ids[j];
    }
  }
}
