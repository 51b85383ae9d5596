/** The reducer of the todo list (Todos/Todos/TodosLogic.swift). */
module TodosLogic {
  import opened TodoModel
  import opened TodoLogic
  import opened TodosModel
  import opened ArrayOps
  import opened Effects
  import Wrappers

  datatype TodosAction =
    | AddTodoButtonTapped
    | ClearCompletedButtonTapped
    | FilterSelected(filter: TodosFilter)
    | Delete(offsets: set<nat>)
    | DeleteAllTapped
    | EditModeChanged(mode: EditMode)
    | Move(source: set<nat>, destination: int)
    | SortCompletedTodos
    | Todo(id: Uuid, action: TodoAction)

  /** The identity of the debounced re-sort (`struct TodoCompletionId: Hashable {}`). */
  const TodoCompletionId: string := "TodoCompletionId"

  /** How long `move` waits before re-sorting: 100 milliseconds. */
  const MoveSortDelay: nat := 100

  /** How long a completion toggle waits for the next one before re-sorting: one second. */
  const CompletionSortDebounce: nat := 1000

  // ---------------------------------------------------------------------------------------
  // The offset translation of `move`
  // ---------------------------------------------------------------------------------------

  /** `source.map { filteredTodos[$0] }.compactMap { todos.index(id: $0.id) }`: the positions in
      `todos` of the todos shown at the `source` offsets of `filteredTodos`. Indexing
      `filteredTodos` traps on an offset it does not have, hence the precondition. */
  function SourceInTodos(state: TodosState, source: set<nat>): (r: set<nat>)
    requires forall o :: o in source ==> o < |state.FilteredTodos()|
    ensures forall i :: i in r ==> i < |state.todos|
    ensures forall i :: i in r ==> exists o :: o in source && state.todos[i].id == state.FilteredTodos()[o].id
  {
    var filtered := state.FilteredTodos();
    set o | o in source && IndexOfId(state.todos, filtered[o].id).Some? :: IndexOfId(state.todos, filtered[o].id).value
  }

  /** `todos.index(id: filteredTodos[destination].id)!`: the position in `todos` of the todo shown
      at `destination`. The force unwrap never fails, because every shown todo is in `todos`;
      indexing `filteredTodos` traps outside its bounds, hence the precondition. */
  function DestinationInTodos(state: TodosState, destination: int): (r: nat)
    requires 0 <= destination < |state.FilteredTodos()|
    ensures r < |state.todos| && state.todos[r].id == state.FilteredTodos()[destination].id
  {
    var shown := state.FilteredTodos()[destination];
    assert HasId(state.todos, shown.id);
    IndexOfId(state.todos, shown.id).value
  }

  /** With unique ids the translation is exact: a position is translated-to exactly when the
      todo there is shown at one of the `source` offsets. */
  lemma SourceInTodosExactly(state: TodosState, source: set<nat>)
    requires UniqueIds(state.todos)
    requires forall o :: o in source ==> o < |state.FilteredTodos()|
    ensures forall i :: 0 <= i < |state.todos| ==>
              (i in SourceInTodos(state, source) <==> exists o :: o in source && state.todos[i] == state.FilteredTodos()[o])
  {
    var filtered := state.FilteredTodos();
    var r := SourceInTodos(state, source);
    forall i | 0 <= i < |state.todos|
      ensures i in r <==> exists o :: o in source && state.todos[i] == filtered[o]
    {
      if i in r {
        var o :| o in source && state.todos[i].id == filtered[o].id;
        assert filtered[o] in state.todos;
        var p :| 0 <= p < |state.todos| && state.todos[p] == filtered[o];
        assert p == i;
      }
      if o :| o in source && state.todos[i] == filtered[o] {
        IndexOfIdFinds(state.todos, i);
        assert IndexOfId(state.todos, filtered[o].id).value == i;
      }
    }
  }

  /** With unique ids the destination is the very todo shown at `destination`. */
  lemma DestinationInTodosExactly(state: TodosState, destination: int)
    requires UniqueIds(state.todos)
    requires 0 <= destination < |state.FilteredTodos()|
    ensures state.todos[DestinationInTodos(state, destination)] == state.FilteredTodos()[destination]
  {
    var shown := state.FilteredTodos()[destination];
    assert shown in state.todos;
    var p :| 0 <= p < |state.todos| && state.todos[p] == shown;
    IndexOfIdFinds(state.todos, p);
  }

  /** The todo shown at `destination`, when `destination` is not among the `source` offsets, is
      not among the todos `move` lifts out. */
  lemma DestinationNotMoved(state: TodosState, source: set<nat>, destination: int)
    requires UniqueIds(state.todos)
    requires forall o :: o in source ==> o < |state.FilteredTodos()|
    requires 0 <= destination < |state.FilteredTodos()| && destination !in source
    ensures DestinationInTodos(state, destination) !in SourceInTodos(state, source)
  {
    var filtered := state.FilteredTodos();
    var d := DestinationInTodos(state, destination);
    SourceInTodosExactly(state, source);
    DestinationInTodosExactly(state, destination);
    SubmultisetKeepsUniqueIds(filtered, state.todos);
    forall o | o in source
      ensures state.todos[d] != filtered[o]
    {
      assert o != destination;
    }
  }

  /** The todos `move` lifts out are exactly the todos shown at the `source` offsets. */
  lemma MovedAreShownAtSource(state: TodosState, source: set<nat>)
    requires UniqueIds(state.todos)
    requires forall o :: o in source ==> o < |state.FilteredTodos()|
    ensures var moved := Pick(state.todos, 0, |state.todos|, SourceInTodos(state, source), true);
            forall t :: t in moved <==> exists o :: o in source && t == state.FilteredTodos()[o]
  {
    var filtered := state.FilteredTodos();
    var offsets := SourceInTodos(state, source);
    var n := |state.todos|;
    var moved := Pick(state.todos, 0, n, offsets, true);
    SourceInTodosExactly(state, source);
    forall t | t in moved
      ensures exists o :: o in source && t == filtered[o]
    {
      var k :| 0 <= k < |moved| && moved[k] == t;
      PickFrom(state.todos, 0, n, offsets, true, k);
    }
    forall o | o in source
      ensures filtered[o] in moved
    {
      assert filtered[o] in state.todos;
      var i :| 0 <= i < n && state.todos[i] == filtered[o];
      PickAt(state.todos, 0, n, offsets, true, i);
    }
  }

  /** What `move` does to the list when the destination row is not itself among the moved rows:
      the todos shown at the `source` offsets are gathered, in list order, into one block that
      stands immediately in front of the todo shown at `destination`. */
  lemma MoveGathersBeforeDestination(state: TodosState, source: set<nat>, destination: int)
    requires UniqueIds(state.todos)
    requires forall o :: o in source ==> o < |state.FilteredTodos()|
    requires 0 <= destination < |state.FilteredTodos()| && destination !in source
    ensures var offsets := SourceInTodos(state, source);
            var d := DestinationInTodos(state, destination);
            var moved := Pick(state.todos, 0, |state.todos|, offsets, true);
            var at := |Pick(state.todos, 0, d, offsets, false)|;
            var r := MoveOffsets(state.todos, offsets, d);
            && at + |moved| < |r|
            && r[at..at + |moved|] == moved
            && r[at + |moved|] == state.FilteredTodos()[destination]
            && (forall t :: t in moved <==> exists o :: o in source && t == state.FilteredTodos()[o])
  {
    DestinationNotMoved(state, source, destination);
    DestinationInTodosExactly(state, destination);
    MovedAreShownAtSource(state, source);
    MovePlacesBefore(state.todos, SourceInTodos(state, source), DestinationInTodos(state, destination));
  }

  /** The destination translation as written, with the trap made visible: `filteredTodos[destination]`
      has a value only for a destination below the number of shown todos, and traps otherwise. */
  function DestinationAsWritten(state: TodosState, destination: int): (r: Wrappers.Option<nat>)
    ensures r.Some? <==> 0 <= destination < |state.FilteredTodos()|
    ensures r.Some? ==> r.value < |state.todos| && state.todos[r.value].id == state.FilteredTodos()[destination].id
  {
    if 0 <= destination < |state.FilteredTodos()| then Wrappers.Some(DestinationInTodos(state, destination))
    else Wrappers.None
  }

  /** The list view reports a drop after the last row as the destination equal to the number of
      rows shown (Todos/Todos/TodosView.swift:56). Whenever a row is shown at all, that destination
      is one the translation as written traps on. */
  lemma DropAfterLastRowTraps(state: TodosState)
    requires |state.FilteredTodos()| != 0
    ensures var destination := |state.FilteredTodos()|;
            && 0 < destination
            && DestinationAsWritten(state, destination).None?
            && DestinationAsWritten(state, destination - 1).Some?
  {
  }

  /** The destination translation as evidently intended: a destination below the number of shown
      todos is translated as written, and a drop after the last shown row moves to the end of
      `todos`. */
  function DestinationOrEnd(state: TodosState, destination: int): (r: nat)
    requires 0 <= destination <= |state.FilteredTodos()|
    ensures r <= |state.todos|
    ensures destination < |state.FilteredTodos()| ==>
              r < |state.todos| && state.todos[r].id == state.FilteredTodos()[destination].id
    ensures destination == |state.FilteredTodos()| ==> r == |state.todos|
  {
    if destination < |state.FilteredTodos()| then DestinationInTodos(state, destination)
    else |state.todos|
  }

  /** With the corrected translation, a drop after the last shown row puts the todos shown at the
      `source` offsets, in list order, at the end of the list, after every todo that stays. */
  lemma MoveAfterLastRow(state: TodosState, source: set<nat>)
    requires UniqueIds(state.todos)
    requires forall o :: o in source ==> o < |state.FilteredTodos()|
    ensures var offsets := SourceInTodos(state, source);
            var moved := Pick(state.todos, 0, |state.todos|, offsets, true);
            var r := MoveOffsets(state.todos, offsets, DestinationOrEnd(state, |state.FilteredTodos()|));
            && r == RemoveAtOffsets(state.todos, offsets) + moved
            && (forall t :: t in moved <==> exists o :: o in source && t == state.FilteredTodos()[o])
  {
    MoveToEnd(state.todos, SourceInTodos(state, source));
    MovedAreShownAtSource(state, source);
  }

  // ---------------------------------------------------------------------------------------
  // sortCompletedTodos: `todos.sort()` by `<`
  // ---------------------------------------------------------------------------------------

  /** Inserting a complete todo into a list made of incomplete todos followed by complete ones
      puts it at the head of the complete ones. */
  lemma {:induction false} InsertComplete(x: TodoModel.Todo, incomplete: seq<TodoModel.Todo>, complete: seq<TodoModel.Todo>)
    requires x.isComplete
    requires forall t :: t in incomplete ==> !t.isComplete
    requires forall t :: t in complete ==> t.isComplete
    ensures Insert(x, incomplete + complete, Less) == incomplete + [x] + complete
  {
    if |incomplete| != 0 {
      assert (incomplete + complete)[1..] == incomplete[1..] + complete;
      InsertComplete(x, incomplete[1..], complete);
    }
  }

  lemma FilterNone(s: seq<TodoModel.Todo>, p: TodoModel.Todo -> bool)
    requires forall t :: t in s ==> !p(t)
    ensures Filter(s, p) == []
  {
    if Filter(s, p) != [] {
      assert Filter(s, p)[0] in Filter(s, p);
    }
  }

  /** An incomplete todo is inserted at the front. */
  lemma InsertIncomplete(x: TodoModel.Todo, s: seq<TodoModel.Todo>)
    requires !x.isComplete
    ensures Insert(x, s, Less) == [x] + s
  {
  }

  /** Every todo a filter keeps satisfies it. */
  lemma FilterSatisfies(s: seq<TodoModel.Todo>, p: TodoModel.Todo -> bool)
    ensures forall k :: 0 <= k < |Filter(s, p)| ==> p(Filter(s, p)[k])
  {
    forall k | 0 <= k < |Filter(s, p)|
      ensures p(Filter(s, p)[k])
    {
      assert Filter(s, p)[k] in Filter(s, p);
    }
  }

  /** `sort()` by `<` is the stable partition of the list: the incomplete todos in their order,
      then the complete ones in theirs. */
  lemma {:induction false} SortIsStablePartition(todos: seq<TodoModel.Todo>)
    ensures Sort(todos, Less) == Filter(todos, IsIncomplete) + Filter(todos, IsComplete)
  {
    if |todos| != 0 {
      var x, rest := todos[0], todos[1..];
      SortIsStablePartition(rest);
      var incomplete, complete := Filter(rest, IsIncomplete), Filter(rest, IsComplete);
      SortHead(todos, Less);
      FilterHead(todos, IsIncomplete);
      FilterHead(todos, IsComplete);
      if x.isComplete {
        FilterSatisfies(rest, IsIncomplete);
        FilterSatisfies(rest, IsComplete);
        InsertComplete(x, incomplete, complete);
        ConcatAssociative(incomplete, [x], complete);
      } else {
        InsertIncomplete(x, incomplete + complete);
        ConcatAssociative([x], incomplete, complete);
      }
    }
  }

  /** Incomplete todos followed by complete ones: no complete todo precedes an incomplete one. */
  predicate IncompleteFirst(r: seq<TodoModel.Todo>)
  {
    forall i, j :: 0 <= i < j < |r| && r[i].isComplete ==> r[j].isComplete
  }

  lemma ConcatIncompleteFirst(incomplete: seq<TodoModel.Todo>, complete: seq<TodoModel.Todo>)
    requires forall k :: 0 <= k < |incomplete| ==> !incomplete[k].isComplete
    requires forall k :: 0 <= k < |complete| ==> complete[k].isComplete
    ensures IncompleteFirst(incomplete + complete)
  {
    var r := incomplete + complete;
    forall i, j | 0 <= i < j < |r| && r[i].isComplete
      ensures r[j].isComplete
    {
      if |incomplete| <= i {
        assert r[j] == complete[j - |incomplete|];
      }
    }
  }

  /** After the sort every incomplete todo comes before every complete one. */
  lemma SortPutsIncompleteFirst(todos: seq<TodoModel.Todo>)
    ensures IncompleteFirst(Sort(todos, Less))
  {
    SortIsStablePartition(todos);
    FilterSatisfies(todos, IsIncomplete);
    FilterSatisfies(todos, IsComplete);
    ConcatIncompleteFirst(Filter(todos, IsIncomplete), Filter(todos, IsComplete));
  }

  /** The sort is stable: within each group the todos keep their relative order. */
  lemma SortIsStable(todos: seq<TodoModel.Todo>)
    ensures Filter(Sort(todos, Less), IsIncomplete) == Filter(todos, IsIncomplete)
    ensures Filter(Sort(todos, Less), IsComplete) == Filter(todos, IsComplete)
  {
    SortIsStablePartition(todos);
    var incomplete, complete := Filter(todos, IsIncomplete), Filter(todos, IsComplete);
    FilterConcat(incomplete, complete, IsIncomplete);
    FilterConcat(incomplete, complete, IsComplete);
    FilterIdempotent(todos, IsIncomplete);
    FilterIdempotent(todos, IsComplete);
    FilterNone(complete, IsIncomplete);
    FilterNone(incomplete, IsComplete);
  }

  /** Sorting a sorted list changes nothing. */
  lemma SortIsIdempotent(todos: seq<TodoModel.Todo>)
    ensures Sort(Sort(todos, Less), Less) == Sort(todos, Less)
  {
    SortIsStable(todos);
    SortIsStablePartition(todos);
    SortIsStablePartition(Sort(todos, Less));
  }

  // ---------------------------------------------------------------------------------------
  // delete: offsets of the list view against offsets of `todos`
  // ---------------------------------------------------------------------------------------

  /** A list on which `delete` and the list view disagree: `[a, b, c]` under the `Completed`
      filter, where only `b` is complete, so that the view shows `b` alone. */
  function DeleteExample(): TodosState
  {
    TodosState(Inactive, Completed, [TodoModel.Todo(0, "a", false), TodoModel.Todo(1, "b", true), TodoModel.Todo(2, "c", false)])
  }

  /** `delete` removes at positions of `todos`, while the list view reports positions of
      `filteredTodos` (Todos/Todos/TodosView.swift:51-55). On the example, swiping away the one
      row shown (offset 0, showing `b`) keeps `b` and removes `a`, which is not shown at all. */
  lemma DeleteTakesRawOffsets()
    ensures var state := DeleteExample();
            && state.FilteredTodos() == [state.todos[1]]
            && RemoveAtOffsets(state.todos, {0}) == [state.todos[1], state.todos[2]]
  {
    var todos := DeleteExample().todos;
    FilterHead(todos, IsComplete);
    FilterHead(todos[1..], IsComplete);
    FilterHead(todos[2..], IsComplete);
    assert todos[1..][1..] == todos[2..] && todos[2..][1..] == [];
    assert Pick(todos, 3, 3, {0}, false) == [];
    assert Pick(todos, 2, 3, {0}, false) == [todos[2]];
    assert Pick(todos, 1, 3, {0}, false) == [todos[1], todos[2]];
  }

  /** Deleting rows of the list view, as evidently intended: the offsets are positions of
      `filteredTodos`, translated into positions of `todos` the way `move` translates its
      source offsets. */
  function DeleteShown(state: TodosState, offsets: set<nat>): (r: seq<TodoModel.Todo>)
    requires forall o :: o in offsets ==> o < |state.FilteredTodos()|
    ensures multiset(r) <= multiset(state.todos)
  {
    RemoveAtOffsets(state.todos, SourceInTodos(state, offsets))
  }

  /** Every todo that remains was not shown at any of the offsets. */
  lemma DeleteShownKeepsOnlyUnshown(state: TodosState, offsets: set<nat>, k: nat)
    requires UniqueIds(state.todos)
    requires forall o :: o in offsets ==> o < |state.FilteredTodos()|
    requires k < |DeleteShown(state, offsets)|
    ensures DeleteShown(state, offsets)[k] in state.todos
    ensures forall o :: o in offsets ==> DeleteShown(state, offsets)[k] != state.FilteredTodos()[o]
  {
    var positions := SourceInTodos(state, offsets);
    var r := DeleteShown(state, offsets);
    assert r == Pick(state.todos, 0, |state.todos|, positions, false);
    PickFrom(state.todos, 0, |state.todos|, positions, false, k);
    var i :| 0 <= i < |state.todos| && (i in positions) == false && r[k] == state.todos[i];
    SourceInTodosExactly(state, offsets);
  }

  /** Every todo not shown at any of the offsets remains. */
  lemma DeleteShownKeepsUnshown(state: TodosState, offsets: set<nat>, i: nat)
    requires UniqueIds(state.todos)
    requires forall o :: o in offsets ==> o < |state.FilteredTodos()|
    requires i < |state.todos|
    requires forall o :: o in offsets ==> state.todos[i] != state.FilteredTodos()[o]
    ensures state.todos[i] in DeleteShown(state, offsets)
  {
    var positions := SourceInTodos(state, offsets);
    SourceInTodosExactly(state, offsets);
    assert i !in positions;
    PickAt(state.todos, 0, |state.todos|, positions, false, i);
  }

  /** With unique ids, deleting shown rows removes exactly the todos shown at the offsets. */
  lemma DeleteShownRemovesShownRows(state: TodosState, offsets: set<nat>)
    requires UniqueIds(state.todos)
    requires forall o :: o in offsets ==> o < |state.FilteredTodos()|
    ensures forall t :: t in DeleteShown(state, offsets) <==>
              t in state.todos && forall o :: o in offsets ==> t != state.FilteredTodos()[o]
  {
    var r := DeleteShown(state, offsets);
    forall t | t in r
      ensures t in state.todos && forall o :: o in offsets ==> t != state.FilteredTodos()[o]
    {
      var k :| 0 <= k < |r| && r[k] == t;
      DeleteShownKeepsOnlyUnshown(state, offsets, k);
    }
    forall t | t in state.todos && forall o :: o in offsets ==> t != state.FilteredTodos()[o]
      ensures t in r
    {
      var i :| 0 <= i < |state.todos| && state.todos[i] == t;
      DeleteShownKeepsUnshown(state, offsets, i);
    }
  }

  // ---------------------------------------------------------------------------------------
  // The reducer
  // ---------------------------------------------------------------------------------------

  /** `todoReducer.forEach(state: \.todos, action: /TodosAction.todo, ...)`: run the todo reducer
      on the todo with the given id, if the list has one, and lift its effect. */
  method ForEachTodo(todos: seq<TodoModel.Todo>, id: Uuid, action: TodoAction)
    returns (next: seq<TodoModel.Todo>, effect: Effect<TodosAction>)
    requires UniqueIds(todos)
    ensures |next| == |todos| && UniqueIds(next)
    ensures forall i :: 0 <= i < |todos| ==>
              next[i] == if todos[i].id == id then Applied(todos[i], action) else todos[i]
    ensures !HasId(todos, id) ==> next == todos
    ensures effect == None
  {
    match IndexOfId(todos, id) {
      case None =>
        next, effect := todos, None;
      case Some(i) =>
        var todo, todoEffect := TodoLogic.Reduce(todos[i], action);
        next := todos[i := todo];
        effect := Map(todoEffect, (a: TodoAction) => TodosAction.Todo(id, a));
    }
  }

  /** `todosReducer`: the `inout TodosState` is passed in as `state` and comes back as `next`;
      `freshId` is the identifier `env.uuid()` hands out. */
  method Reduce(state: TodosState, action: TodosAction, freshId: Uuid)
    returns (next: TodosState, effect: Effect<TodosAction>)
    requires UniqueIds(state.todos)
    requires action.AddTodoButtonTapped? ==> !HasId(state.todos, freshId)
    requires action.Delete? ==> forall o :: o in action.offsets ==> o < |state.todos|
    requires action.Move? ==>
               (forall o :: o in action.source ==> o < |state.FilteredTodos()|)
               && 0 <= action.destination < |state.FilteredTodos()|
    ensures UniqueIds(next.todos)
    ensures action.AddTodoButtonTapped? ==>
              next == state.(filter := All, todos := [New(freshId)] + state.todos)
              && next.CanEdit() && effect == None
    ensures action.ClearCompletedButtonTapped? ==>
              next == state.(todos := Filter(state.todos, IsIncomplete))
              && !next.CanClearCompleted() && effect == None
    ensures action.FilterSelected? ==> next == state.(filter := action.filter) && effect == None
    ensures action.Delete? ==>
              next == state.(todos := RemoveAtOffsets(state.todos, action.offsets))
              && |next.todos| == |state.todos| - |action.offsets| && effect == None
    ensures action.DeleteAllTapped? ==> next == Initial() && effect == None
    ensures action.EditModeChanged? ==> next == state.(editMode := action.mode) && effect == None
    ensures action.Move? ==>
              next == state.(todos := MoveOffsets(state.todos, SourceInTodos(state, action.source),
                                                  DestinationInTodos(state, action.destination)))
              && multiset(next.todos) == multiset(state.todos)
              && effect == Delayed(SortCompletedTodos, MoveSortDelay)
    ensures action.SortCompletedTodos? ==>
              next == state.(todos := Sort(state.todos, Less))
              && multiset(next.todos) == multiset(state.todos) && effect == None
    ensures action.Todo? ==>
              next.editMode == state.editMode && next.filter == state.filter
              && |next.todos| == |state.todos|
              && (forall i :: 0 <= i < |state.todos| ==>
                    next.todos[i] == if state.todos[i].id == action.id then Applied(state.todos[i], action.action)
                                     else state.todos[i])
              && (!HasId(state.todos, action.id) ==> next == state)
              && effect == if action.action.CheckBoxToggled?
                           then Debounced(TodoCompletionId, SortCompletedTodos, CompletionSortDebounce)
                           else None
  {
    next := state;

    // The per-todo reducer runs first, and only on `.todo` actions.
    var childEffect: Effect<TodosAction> := None;
    if action.Todo? {
      var todos;
      todos, childEffect := ForEachTodo(next.todos, action.id, action.action);
      next := next.(todos := todos);
    }

    var mainEffect: Effect<TodosAction>;
    match action {
      case AddTodoButtonTapped =>
        next := next.(filter := All);
        next := next.(todos := [New(freshId)] + next.todos);
        mainEffect := None;
      case ClearCompletedButtonTapped =>
        next := next.(todos := Filter(next.todos, IsIncomplete));
        mainEffect := None;
      case FilterSelected(filter) =>
        next := next.(filter := filter);
        mainEffect := None;
      case Delete(offsets) =>
        next := next.(todos := RemoveAtOffsets(next.todos, offsets));
        mainEffect := None;
      case DeleteAllTapped =>
        next := next.(editMode := Inactive);
        next := next.(filter := All);
        next := next.(todos := []);
        mainEffect := None;
      case EditModeChanged(mode) =>
        next := next.(editMode := mode);
        mainEffect := None;
      case Move(source, destination) =>
        var sourceInTodos := SourceInTodos(next, source);
        var destinationInTodos := DestinationInTodos(next, destination);
        next := next.(todos := MoveOffsets(next.todos, sourceInTodos, destinationInTodos));
        mainEffect := Delayed(SortCompletedTodos, MoveSortDelay);
      case SortCompletedTodos =>
        next := next.(todos := Sort(next.todos, Less));
        mainEffect := None;
      case Todo(_, CheckBoxToggled) =>
        mainEffect := Debounced(TodoCompletionId, SortCompletedTodos, CompletionSortDebounce);
      case Todo(_, _) =>
        mainEffect := None;
    }
    effect := Merge(childEffect, mainEffect);

    if action.AddTodoButtonTapped? {
      assert forall t :: t in state.todos ==> t.id != freshId;
    } else if !action.Todo? && !action.DeleteAllTapped? {
      SubmultisetKeepsUniqueIds(next.todos, state.todos);
    }
  }
}
