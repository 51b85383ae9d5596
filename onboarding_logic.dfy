/** The reducer of the onboarding flow (Todos/Onboarding/OnboardingLogic.swift). */
module OnboardingLogic {
  import opened TodoModel
  import opened TodoLogic
  import opened TodosModel
  import opened ArrayOps
  import opened Effects
  import opened OnboardingModel
  import Wrappers
  import TodosLogic

  datatype OnboardingAction =
    | PreviousButtonTapped
    | NextButtonTapped
    | SkipButtonTapped
    | TodosAction(action: TodosLogic.TodosAction)

  /** A todo the user has written something into; leaving the `actions` step drops the others. */
  function HasDescription(t: Todo): (r: bool)
    ensures r <==> |t.description| > 0
    ensures t == New(t.id) ==> !r
  {
    t.description != ""
  }

  /** The (step, child action) pairs the onboarding reducer acts on: adding a todo while the
      actions are shown, selecting a filter while the filters are shown, and editing or re-sorting
      the todos while they are shown. Every other child action is ignored, and so is every child
      action once the flow has no step. */
  function Honoured(step: Wrappers.Option<OnboardingStep>, child: TodosLogic.TodosAction): (r: bool)
    ensures r ==> step.Some?
    ensures (|| child.Delete? || child.Move? || child.DeleteAllTapped? || child.EditModeChanged?
             || child.ClearCompletedButtonTapped?) ==> !r
  {
    || (step == Wrappers.Some(Actions) && child.AddTodoButtonTapped?)
    || (step == Wrappers.Some(Filters) && child.FilterSelected?)
    || (step == Wrappers.Some(Todos) && (child.Todo? || child.SortCompletedTodos?))
  }

  /** Each honoured kind of child action is honoured exactly at its own step. */
  lemma HonouredPerStep(step: Wrappers.Option<OnboardingStep>, child: TodosLogic.TodosAction)
    ensures child.AddTodoButtonTapped? ==> (Honoured(step, child) <==> step == Wrappers.Some(Actions))
    ensures child.FilterSelected? ==> (Honoured(step, child) <==> step == Wrappers.Some(Filters))
    ensures child.Todo? || child.SortCompletedTodos? ==> (Honoured(step, child) <==> step == Wrappers.Some(Todos))
  {
  }

  /** `onboardingReducer`: the `inout OnboardingState` is passed in as `state` and comes back as
      `next`; `freshId` is the identifier `env.uuid()` hands out. */
  method Reduce(state: OnboardingState, action: OnboardingAction, freshId: Uuid)
    returns (next: OnboardingState, effect: Effect<OnboardingAction>)
    requires UniqueIds(state.todosState.todos)
    requires action.TodosAction? && action.action.AddTodoButtonTapped? ==> !HasId(state.todosState.todos, freshId)
    ensures UniqueIds(next.todosState.todos)
    ensures action.PreviousButtonTapped? ==>
              next == state.(step := PreviousOf(state.step), todosState := state.todosState.(filter := All))
              && effect == None
    ensures action.NextButtonTapped? && state.step == Wrappers.Some(Actions) ==>
              next == state.(step := Wrappers.Some(Filters),
                             todosState := state.todosState.(filter := All,
                                                             todos := Filter(state.todosState.todos, HasDescription)))
              && effect == None
    ensures action.NextButtonTapped? && state.step != Wrappers.Some(Actions) ==>
              next == state.(step := NextOf(state.step), todosState := state.todosState.(filter := All))
              && effect == None
    ensures action.SkipButtonTapped? ==>
              next == state.(step := Wrappers.None, todosState := state.todosState.(filter := All))
              && effect == None
    ensures action.TodosAction? && !Honoured(state.step, action.action) ==> next == state && effect == None
    ensures action.TodosAction? && Honoured(state.step, action.action) && action.action.AddTodoButtonTapped? ==>
              next == state.(todosState := state.todosState.(todos := state.todosState.todos + [New(freshId)]))
              && effect == None
    ensures action.TodosAction? && Honoured(state.step, action.action) && action.action.FilterSelected? ==>
              next == state.(todosState := state.todosState.(filter := action.action.filter))
              && effect == None
    ensures action.TodosAction? && Honoured(state.step, action.action) && action.action.SortCompletedTodos? ==>
              next == state.(todosState := state.todosState.(todos := Sort(state.todosState.todos, Less)))
              && effect == None
    ensures action.TodosAction? && Honoured(state.step, action.action) && action.action.Todo? ==>
              var id, todoAction := action.action.id, action.action.action;
              && next.step == state.step
              && next.todosState.editMode == state.todosState.editMode
              && next.todosState.filter == state.todosState.filter
              && |next.todosState.todos| == |state.todosState.todos|
              && (forall i :: 0 <= i < |state.todosState.todos| ==>
                    next.todosState.todos[i] == if state.todosState.todos[i].id == id
                                                then Applied(state.todosState.todos[i], todoAction)
                                                else state.todosState.todos[i])
              && effect == if todoAction.CheckBoxToggled?
                           then Debounced(TodosLogic.TodoCompletionId,
                                          TodosAction(TodosLogic.SortCompletedTodos),
                                          TodosLogic.CompletionSortDebounce)
                           else None
  {
    next, effect := state, None;
    match action {
      case PreviousButtonTapped =>
        next := next.(step := PreviousOf(next.step));
        next := next.(todosState := next.todosState.(filter := All));
      case NextButtonTapped =>
        if next.step == Wrappers.Some(Actions) {
          var todos := Filter(next.todosState.todos, HasDescription);
          SubmultisetKeepsUniqueIds(todos, next.todosState.todos);
          next := next.(todosState := next.todosState.(todos := todos));
        }
        // The `actions` case falls through into the shared one.
        next := next.(step := NextOf(next.step));
        next := next.(todosState := next.todosState.(filter := All));
      case SkipButtonTapped =>
        next := next.(todosState := next.todosState.(filter := All));
        next := next.(step := Wrappers.None);
      case TodosAction(child) =>
        if child.AddTodoButtonTapped? && next.step == Wrappers.Some(Actions) {
          var todos := next.todosState.todos + [New(freshId)];
          assert forall t :: t in state.todosState.todos ==> t.id != freshId;
          next := next.(todosState := next.todosState.(todos := todos));
        } else if child.FilterSelected? && next.step == Wrappers.Some(Filters) {
          next := next.(todosState := next.todosState.(filter := child.filter));
        } else if next.step == Wrappers.Some(Todos) {
          if child.Todo? || child.SortCompletedTodos? {
            var todosState, todosEffect := TodosLogic.Reduce(next.todosState, child, freshId);
            next := next.(todosState := todosState);
            effect := Map(todosEffect, (a: TodosLogic.TodosAction) => OnboardingAction.TodosAction(a));
          }
        }
    }
  }
}
