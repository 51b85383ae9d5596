/** The reducer of a single todo (Todos/Todo/TodoLogic.swift). */
module TodoLogic {
  import opened TodoModel
  import opened Effects

  datatype TodoAction =
    | CheckBoxToggled
    | TextFieldChanged(text: string)

  /** The todo after `action`: what `todoReducer` leaves in its `inout` parameter. */
  function Applied(todo: Todo, action: TodoAction): (r: Todo)
    ensures r.id == todo.id
    ensures action.CheckBoxToggled? ==> r.isComplete == !todo.isComplete && r.description == todo.description
    ensures action.TextFieldChanged? ==> r.description == action.text && r.isComplete == todo.isComplete
  {
    match action
    case CheckBoxToggled => todo.(isComplete := !todo.isComplete)
    case TextFieldChanged(text) => todo.(description := text)
  }

  /** `todoReducer`: the `inout Todo` is passed in as `todo` and comes back as `next`. */
  method Reduce(todo: Todo, action: TodoAction) returns (next: Todo, effect: Effect<TodoAction>)
    ensures next == Applied(todo, action)
    ensures effect == None
  {
    next := todo;
    match action {
      case CheckBoxToggled =>
        next := next.(isComplete := !next.isComplete);
        effect := None;
      case TextFieldChanged(description) =>
        next := next.(description := description);
        effect := None;
    }
  }

  /** Toggling twice gives back the todo one started with. */
  lemma ToggleTwice(todo: Todo)
    ensures Applied(Applied(todo, CheckBoxToggled), CheckBoxToggled) == todo
  {
  }

  /** Editing the text replaces it: the last edit wins. */
  lemma TextFieldChangedTwice(todo: Todo, first: string, second: string)
    ensures Applied(Applied(todo, TextFieldChanged(first)), TextFieldChanged(second))
            == Applied(todo, TextFieldChanged(second))
  {
  }
}
