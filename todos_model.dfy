/** The state of the todo list and the views derived from it (Todos/Todos/TodosModel.swift). */
module TodosModel {
  import opened TodoModel
  import opened ArrayOps
  import opened Wrappers

  /** SwiftUI's `EditMode`. */
  datatype EditMode = Inactive | Transient | Active

  datatype TodosFilter = All | Active | Completed

  /** `TodosState`. `todos` stands for `IdentifiedArrayOf<Todo>`: a sequence whose ids are
      unique (`UniqueIds`). */
  datatype TodosState = TodosState(editMode: EditMode, filter: TodosFilter, todos: seq<Todo>)
  {
    /** `filteredTodos`: the todos the current filter shows, in list order. */
    function FilteredTodos(): (r: seq<Todo>)
      ensures |r| <= |todos| && multiset(r) <= multiset(todos)
      ensures forall t :: t in r ==> t in todos
      ensures filter == All ==> r == todos
      ensures filter == TodosFilter.Active ==> forall t :: t in todos ==> (t in r <==> !t.isComplete)
      ensures filter == Completed ==> forall t :: t in todos ==> (t in r <==> t.isComplete)
    {
      match filter
      case All => todos
      case Active => Filter(todos, IsIncomplete)
      case Completed => Filter(todos, IsComplete)
    }

    /** `canEdit`. */
    function CanEdit(): (r: bool)
      ensures r <==> |todos| > 0
    {
      todos != []
    }

    /** `canClearCompleted`: some todo is complete, which is to say that the `Completed` view is
        not empty, and that clearing the completed todos would change the list. */
    function CanClearCompleted(): (r: bool)
      ensures r <==> Filter(todos, IsComplete) != []
      ensures r <==> Filter(todos, IsIncomplete) != todos
    {
      CompletedViews(todos);
      exists t :: t in todos && t.isComplete
    }

    /** `canDeleteAll`. */
    function CanDeleteAll(): (r: bool)
      ensures r <==> CanEdit() && editMode == EditMode.Active
    {
      todos != [] && editMode == EditMode.Active
    }
  }

  lemma CompletedViews(todos: seq<Todo>)
    ensures (exists t :: t in todos && t.isComplete) <==> Filter(todos, IsComplete) != []
    ensures (exists t :: t in todos && t.isComplete) <==> Filter(todos, IsIncomplete) != todos
  {
    FilterUnchanged(todos, IsIncomplete);
    if t :| t in todos && t.isComplete {
      assert IsComplete(t);
      assert t in Filter(todos, IsComplete);
      assert !IsIncomplete(t);
    } else {
      forall x | x in todos ensures IsIncomplete(x) { }
    }
  }

  /** `TodosState()`: the defaults of the stored properties. */
  function Initial(): (r: TodosState)
    ensures r.editMode == Inactive && r.filter == All && r.todos == []
    ensures !r.CanEdit() && !r.CanClearCompleted() && !r.CanDeleteAll() && r.FilteredTodos() == []
  {
    TodosState(Inactive, All, [])
  }

  /** `canDeleteAll` implies `canEdit`. */
  lemma CanDeleteAllImpliesCanEdit(state: TodosState)
    ensures state.CanDeleteAll() ==> state.CanEdit()
  {
  }

  /** The `Active` and `Completed` views split the list: together they hold every todo once. */
  lemma FilterViewsPartition(state: TodosState)
    ensures multiset(state.(filter := TodosFilter.Active).FilteredTodos())
            + multiset(state.(filter := Completed).FilteredTodos()) == multiset(state.todos)
  {
    FilterPartition(state.todos, IsIncomplete, IsComplete);
  }

  /** A todo the current filter shows stands in `filteredTodos` at the number of shown todos
      before it in `todos`: the view is an order-preserving subsequence of the list. */
  lemma FilteredTodosKeepOrder(state: TodosState, i: nat)
    requires i < |state.todos|
    requires state.todos[i] in state.FilteredTodos()
    ensures var before := state.(todos := state.todos[..i]).FilteredTodos();
            |before| < |state.FilteredTodos()| && state.FilteredTodos()[|before|] == state.todos[i]
  {
    match state.filter
    case All =>
    case Active => FilterAt(state.todos, IsIncomplete, i);
    case Completed => FilterAt(state.todos, IsComplete, i);
  }

  // ---------------------------------------------------------------------------------------
  // Identifiers: the invariant of IdentifiedArray and its lookup by id
  // ---------------------------------------------------------------------------------------

  /** No two todos share an id. */
  ghost predicate UniqueIds(todos: seq<Todo>)
  {
    forall i, j :: 0 <= i < j < |todos| ==> todos[i].id != todos[j].id
  }

  predicate HasId(todos: seq<Todo>, id: Uuid)
  {
    exists t :: t in todos && t.id == id
  }

  /** `index(id:)`: the position of the todo with that id, if there is one. */
  function IndexOfId(todos: seq<Todo>, id: Uuid): (r: Option<nat>)
    ensures r.Some? ==> r.value < |todos| && todos[r.value].id == id
    ensures r.None? <==> !HasId(todos, id)
  {
    if |todos| == 0 then None
    else if todos[0].id == id then Some(0)
    else
      match IndexOfId(todos[1..], id)
      case None =>
        assert todos == [todos[0]] + todos[1..];
        None
      case Some(i) => Some(i + 1)
  }

  /** With unique ids, looking up the id of the todo at `i` finds `i`. */
  lemma IndexOfIdFinds(todos: seq<Todo>, i: nat)
    requires UniqueIds(todos) && i < |todos|
    ensures IndexOfId(todos, todos[i].id) == Some(i)
  {
    assert HasId(todos, todos[i].id);
  }

  /** In a list with unique ids each todo occurs once. */
  lemma {:induction false} UniqueIdsOccurOnce(todos: seq<Todo>, t: Todo)
    requires UniqueIds(todos)
    ensures multiset(todos)[t] <= 1
  {
    if |todos| != 0 {
      var init := todos[..|todos| - 1];
      assert todos == init + [todos[|todos| - 1]];
      assert UniqueIds(init);
      UniqueIdsOccurOnce(init, t);
    }
  }

  /** Any list whose todos are drawn (with multiplicity) from a list with unique ids has unique
      ids too: so do every sub-list and every permutation. */
  lemma SubmultisetKeepsUniqueIds(r: seq<Todo>, s: seq<Todo>)
    requires multiset(r) <= multiset(s) && UniqueIds(s)
    ensures UniqueIds(r)
  {
    forall i, j | 0 <= i < j < |r|
      ensures r[i].id != r[j].id
    {
      if r[i].id == r[j].id {
        assert r[i] in multiset(s) && r[j] in multiset(s);
        var p :| 0 <= p < |s| && s[p] == r[i];
        var q :| 0 <= q < |s| && s[q] == r[j];
        if p == q {
          var x := r[i];
          assert r == r[..j] + r[j..];
          assert x in r[..j] && x in r[j..];
          assert multiset(r)[x] == multiset(r[..j])[x] + multiset(r[j..])[x];
          UniqueIdsOccurOnce(s, x);
          assert false;
        }
      }
    }
  }
}
