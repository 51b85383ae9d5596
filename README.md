# Todos reducers, modelled in Dafny

This project models the state transitions of a todo-list app built on the Composable
Architecture. Each screen is driven by a *reducer*. A reducer takes the current state and an
action, updates the state in place, and returns an *effect*. An effect describes further
actions the runtime should send back later.

Three reducers are modelled, each with its value types:

- **Todo** (`TodoModel`, `TodoLogic`):
  - a todo has an id, a description and a completion flag;
  - the `<` ordering puts incomplete todos before complete ones;
  - the todo reducer toggles completion or replaces the text.
- **Todos** (`TodosModel`, `TodosLogic`):
  - the list of todos, an edit mode and a filter;
  - the derived views `filteredTodos`, `canEdit`, `canClearCompleted` and `canDeleteAll`;
  - the todos reducer, which adds, clears completed, deletes, deletes all, selects a filter,
    changes the edit mode, moves, re-sorts, and forwards per-todo actions to the todo reducer
    by id.
- **Onboarding** (`OnboardingModel`, `OnboardingLogic`):
  - the steps `actions`, `filters` and `todos`, with `next` and `previous`;
  - the onboarding reducer, which moves between the steps and honours a child todos action
    only for certain pairs of step and action.

How the Swift is represented:

- A Swift `inout` struct parameter becomes a value passed in and a new value returned
  (`Reduce(state, action, …) returns (next, effect)`). That copy-in, copy-out is what `inout`
  means for a struct.
- Each reducer is a method whose body follows the Swift `switch` branch by branch.
- The collection operations the reducers call are pure functions in `ArrayOps`, each with the
  properties the reducers rely on proved about it. These are `filter`,
  `removeAll(where:)`, `remove(atOffsets:)`, `move(fromOffsets:toOffset:)` and `sort()`.
- `Effects` describes an effect as a value:
  - `None`;
  - `Delayed(action, milliseconds)`;
  - `Debounced(id, action, milliseconds)`;
  - `Merged(first, second)`.

  `Map` lifts a child effect into a parent's action type.
- The id generator `env.uuid()` becomes a parameter `freshId`. Adding a todo requires that no
  todo already has that id.
- `IdentifiedArrayOf<Todo>` becomes a `seq<Todo>` under the invariant `UniqueIds`. Every
  reducer is proved to preserve that invariant.

Four behaviours the model follows as the code has them, though a reader might expect otherwise:

- `delete` removes at raw positions of `todos`; it does not translate them through
  `filteredTodos` (see Findings).
- When the onboarding `step` is absent, the onboarding reducer ignores every child action;
  the child actions are not delegated to the todos reducer.
- The onboarding add action appends the new todo and leaves the filter unchanged. The todos
  reducer's add prepends and resets the filter.
- `EditMode` is SwiftUI's type, so it has the case `transient` as well as `inactive` and
  `active`.

## Model

| member | source | states |
|---|---|---|
| `TodoModel.New` | Todos/Todo/TodoModel.swift:3-6 | `Todo(id:)` has the given id, an empty description and is not complete |
| `TodoModel.Less` | Todos/Todo/TodoModel.swift:8-10 | `<` only orders todos whose completion flags differ, so it never orders a todo before itself |
| `TodoModel.LessExactly` | Todos/Todo/TodoModel.swift:8-10 | `a < b` holds exactly when `a` is incomplete and `b` is complete; two todos tie exactly when their completion flags are equal |
| `TodoModel.LessIsStrictWeakOrder` | Todos/Todo/TodoModel.swift:8-10 | `<` is irreflexive, asymmetric and transitive, and ties are transitive: a strict weak ordering, as `sort()` requires |
| `TodoLogic.Applied` | Todos/Todo/TodoLogic.swift:12-20 | neither action changes the id; `checkBoxToggled` negates `isComplete` and keeps the description; `textFieldChanged(s)` sets the description to `s` and keeps `isComplete` |
| `TodoLogic.Reduce` | Todos/Todo/TodoLogic.swift:12-21 | the todo reducer leaves the todo as `Applied` describes it and returns no effect |
| `TodoLogic.ToggleTwice` | Todos/Todo/TodoLogic.swift:14-16 | toggling twice gives back the original todo |
| `TodoLogic.TextFieldChangedTwice` | Todos/Todo/TodoLogic.swift:17-19 | of two text edits, the last one wins |
| `ArrayOps.Filter` | Todos/Todos/TodosModel.swift:13-16 | the filter keeps exactly the elements that satisfy the predicate; the result is no longer than the input and a sub-multiset of it |
| `ArrayOps.FilterConcat` | Todos/Todos/TodosModel.swift:13-16 | filtering distributes over concatenation, so the relative order of kept elements is preserved |
| `ArrayOps.FilterAt` | Todos/Todos/TodosModel.swift:13-16 | an element that passes lands at the index given by the number of passing elements before it: the result is an order-preserving subsequence |
| `ArrayOps.FilterUnchanged` | Todos/Todos/TodosLogic.swift:36 | the filter leaves a sequence unchanged exactly when every element passes |
| `ArrayOps.FilterIdempotent` | Todos/Todos/TodosLogic.swift:36 | filtering twice with one predicate is filtering once |
| `ArrayOps.FilterPartition` | Todos/Todos/TodosModel.swift:13-16 | two complementary filters split a sequence: together they hold every element once, and their lengths add up |
| `ArrayOps.RemoveAtOffsets` | Todos/Todos/TodosLogic.swift:44 | `remove(atOffsets:)` with in-range offsets shortens the sequence by the number of offsets and keeps a sub-multiset |
| `ArrayOps.RemoveAtOffsetsKeeps` | Todos/Todos/TodosLogic.swift:44 | each position not among the offsets survives, at the index given by the number of kept positions before it; every survivor comes from such a position |
| `ArrayOps.MoveOffsets` | Todos/Todos/TodosLogic.swift:62 | `move(fromOffsets:toOffset:)` is a permutation: same length and same multiset |
| `ArrayOps.MovePlacesBefore` | Todos/Todos/TodosLogic.swift:62 | the moved elements form one block, in their order, that ends right in front of the element that was at the destination |
| `ArrayOps.MoveIsRemoveThenInsert` | Todos/Todos/TodosLogic.swift:62 | a move is removing the elements at the offsets and inserting them, in order, at the destination minus the number of removed elements before it |
| `ArrayOps.MoveToEnd` | Todos/Todos/TodosLogic.swift:62 | moving to the end of the collection appends the moved elements, in order, to what removing them leaves |
| `ArrayOps.MoveNothing` | Todos/Todos/TodosLogic.swift:62 | moving no element leaves the sequence unchanged |
| `ArrayOps.Sort` | Todos/Todos/TodosLogic.swift:68 | `sort()` returns a permutation of its input |
| `Effects.MapSends` | Todos/Onboarding/OnboardingLogic.swift:44-46 | a mapped effect sends the same number of actions, each transformed by the mapping |
| `Effects.Map` | Todos/Onboarding/OnboardingLogic.swift:46 | `.map(OnboardingAction.todosAction)` keeps the schedule: an empty effect stays empty, a delay or a debounce keeps its kind, its duration and its cancellation id |
| `Effects.Merge` | Todos/Todos/TodosLogic.swift:22-28 | combining the per-todo reducer with the main one loses no action: the merged effect sends the first effect's actions, then the second's |
| `TodosModel.TodosState.FilteredTodos` | Todos/Todos/TodosModel.swift:9-18 | `All` shows every todo; `Active` shows exactly the incomplete todos and `Completed` exactly the complete ones; the view draws from `todos` and is no longer |
| `TodosModel.TodosState.CanEdit` | Todos/Todos/TodosModel.swift:20-22 | holds exactly when the list is not empty |
| `TodosModel.TodosState.CanClearCompleted` | Todos/Todos/TodosModel.swift:24-26 | holds exactly when the `Completed` view is not empty, which is exactly when clearing the completed todos would change the list |
| `TodosModel.TodosState.CanDeleteAll` | Todos/Todos/TodosModel.swift:28-30 | holds exactly when editing is possible and the edit mode is `active` |
| `TodosModel.Initial` | Todos/Todos/TodosModel.swift:5-7 | the default state is inactive, shows all todos, has no todos, and permits no edit, clear or delete-all |
| `TodosModel.CanDeleteAllImpliesCanEdit` | Todos/Todos/TodosModel.swift:20-30 | `canDeleteAll` implies `canEdit` |
| `TodosModel.FilterViewsPartition` | Todos/Todos/TodosModel.swift:13-16 | together, the `Active` and `Completed` views hold every todo exactly once |
| `TodosModel.FilteredTodosKeepOrder` | Todos/Todos/TodosModel.swift:9-18 | a shown todo stands in the view at the number of shown todos before it in the list |
| `TodosModel.IndexOfId` | Todos/Todos/TodosLogic.swift:60-61 | `index(id:)` finds a position holding that id, and finds none exactly when no todo has it |
| `TodosModel.IndexOfIdFinds` | Todos/Todos/TodosLogic.swift:60-61 | with unique ids, looking up the id of the todo at `i` gives `i` |
| `TodosModel.UniqueIdsOccurOnce` | Todos/Todos/TodosModel.swift:7 | in a list with unique ids, each todo occurs at most once |
| `TodosModel.SubmultisetKeepsUniqueIds` | Todos/Todos/TodosModel.swift:7 | every sub-list and every permutation of a list with unique ids has unique ids |
| `TodosLogic.SourceInTodos` | Todos/Todos/TodosLogic.swift:58-60 | each translated source offset is a position in `todos` holding the id of a todo shown at one of the source offsets |
| `TodosLogic.DestinationInTodos` | Todos/Todos/TodosLogic.swift:61 | the translated destination is a position in `todos` holding the id of the todo shown at the destination |
| `TodosLogic.SourceInTodosExactly` | Todos/Todos/TodosLogic.swift:58-60 | with unique ids, a position is translated-to exactly when its todo is shown at a source offset |
| `TodosLogic.DestinationInTodosExactly` | Todos/Todos/TodosLogic.swift:61 | with unique ids, the translated destination holds the very todo shown at the destination |
| `TodosLogic.DestinationNotMoved` | Todos/Todos/TodosLogic.swift:57-62 | a destination that is not a source offset translates to a position that is not moved |
| `TodosLogic.MovedAreShownAtSource` | Todos/Todos/TodosLogic.swift:57-62 | the todos that `move` lifts out are exactly those shown at the source offsets |
| `TodosLogic.MoveGathersBeforeDestination` | Todos/Todos/TodosLogic.swift:57-62 | after `move`, the todos shown at the source offsets stand, in list order, as one block immediately in front of the todo shown at the destination |
| `TodosLogic.DestinationAsWritten` | Todos/Todos/TodosLogic.swift:61 | as written, the destination translates exactly when it is below the number of shown todos, to the position in `todos` of the todo shown there; any other destination traps |
| `TodosLogic.DropAfterLastRowTraps` | Todos/Todos/TodosLogic.swift:61 | whenever a row is shown, a drop after the last row, which the list view reports as the number of shown rows, traps, while the last row itself translates |
| `TodosLogic.DestinationOrEnd` | Todos/Todos/TodosLogic.swift:57-62 | the corrected translation agrees with the written one below the number of shown todos and sends a drop after the last shown row to the end of `todos` |
| `TodosLogic.MoveAfterLastRow` | Todos/Todos/TodosLogic.swift:57-62 | with the corrected translation, a drop after the last shown row leaves every unmoved todo in order, followed by exactly the todos shown at the source offsets, in list order |
| `TodosLogic.SortIsStablePartition` | Todos/Todos/TodosLogic.swift:67-69 | sorting by `<` gives the incomplete todos in their order, followed by the complete ones in theirs |
| `TodosLogic.SortPutsIncompleteFirst` | Todos/Todos/TodosLogic.swift:67-69 | after the sort no complete todo precedes an incomplete one |
| `TodosLogic.SortIsStable` | Todos/Todos/TodosLogic.swift:67-69 | the sort keeps the relative order within the incomplete todos and within the complete ones |
| `TodosLogic.SortIsIdempotent` | Todos/Todos/TodosLogic.swift:67-69 | sorting a sorted list changes nothing |
| `TodosLogic.DeleteTakesRawOffsets` | Todos/Todos/TodosLogic.swift:43-45 | on `[a, b, c]` with only `b` complete and the `Completed` filter, the view shows `[b]`, yet deleting offset 0 leaves `[b, c]` |
| `TodosLogic.DeleteShown` | Todos/Todos/TodosLogic.swift:43-45 | deleting with offsets translated through `filteredTodos` keeps a sub-multiset of the list |
| `TodosLogic.DeleteShownRemovesShownRows` | Todos/Todos/TodosLogic.swift:43-45 | with unique ids, the translated delete keeps exactly the todos not shown at the offsets |
| `TodosLogic.ForEachTodo` | Todos/Todos/TodosLogic.swift:23-27 | the todo with the given id becomes `Applied` to the action and every other todo is unchanged; an unknown id changes nothing; ids stay unique; no effect |
| `TodosLogic.Reduce` | Todos/Todos/TodosLogic.swift:22-79 | one clause per action (add, clear completed, filter, delete, delete all, edit mode, move, sort, per-todo) with the new state and effect; ids stay unique |
| `OnboardingModel.Next` | Todos/Onboarding/OnboardingModel.swift:8-17 | `next` exists exactly before the last step and advances the position by one |
| `OnboardingModel.Previous` | Todos/Onboarding/OnboardingModel.swift:19-28 | `previous` goes back one position and stays at the first step |
| `OnboardingModel.PreviousUndoesNext` | Todos/Onboarding/OnboardingModel.swift:8-28 | wherever `next` is defined, `previous` undoes it |
| `OnboardingModel.NextOf` | Todos/Onboarding/OnboardingLogic.swift:24 | `step?.next` keeps an absent step absent and otherwise is `next` |
| `OnboardingModel.PreviousOf` | Todos/Onboarding/OnboardingLogic.swift:15 | `step?.previous` is absent exactly when the step is, and otherwise is `previous` |
| `OnboardingModel.NextTimesOfNone` | Todos/Onboarding/OnboardingLogic.swift:23-24 | once the step is absent, any number of next taps leaves it absent |
| `OnboardingModel.NextTimesLeaves` | Todos/Onboarding/OnboardingModel.swift:8-17 | from a step, `n` taps of next leave a step exactly when `n` is below the number of steps from there to the end, and that step is `n` positions further on |
| `OnboardingModel.FlowEndsAfterThreeSteps` | Todos/Onboarding/OnboardingModel.swift:8-17 | from `actions`, one or two taps of next leave a step and the third tap ends the flow |
| `OnboardingModel.Initial` | Todos/Onboarding/OnboardingModel.swift:31-34 | a default onboarding state starts at `actions`, on the placeholder list |
| `OnboardingLogic.HasDescription` | Todos/Onboarding/OnboardingLogic.swift:19-20 | leaving `actions` keeps a todo exactly when its description is non-empty; a todo added there and never written into is dropped |
| `OnboardingLogic.Honoured` | Todos/Onboarding/OnboardingLogic.swift:33-52 | no child action is honoured without a step, and delete, move, delete all, edit mode and clear completed are never honoured |
| `OnboardingLogic.HonouredPerStep` | Todos/Onboarding/OnboardingLogic.swift:33-49 | add, filter selection, and per-todo or sort actions are honoured exactly at `actions`, `filters` and `todos` respectively |
| `OnboardingLogic.Reduce` | Todos/Onboarding/OnboardingLogic.swift:12-54 | previous, next and skip move the step and reset the filter; next at `actions` also drops todos without a description; honoured child actions behave as described; every other child action changes nothing and returns no effect; ids stay unique |

## Left out

- The Composable Architecture runtime is not modelled: `Store`, running effects, `delay`
  and `debounce` on a `DispatchQueue`, cancelling by id, and `TestStore`. Effects are only
  returned as descriptions.
- Effects.Merge drops a `None` effect instead of merging it. Running `.none` has no
  observable result, so the two descriptions run the same.
- `env.uuid()` is replaced by the parameter `freshId`. The model does not generate ids.
- `TodosState.placeholder` and `Todo.placeholders` are referenced by the source but not
  defined in the modelled files. OnboardingModel.Initial takes the placeholder list as a
  parameter.
- `Todos/Store+Caching.swift` is foreign I/O and is not modelled. It holds `UserDefaults`,
  JSON coding and a fire-and-forget save. Its wrapper saves the new state after every action
  and falls back to the initial state when loading fails.
- The SwiftUI views, `Todos/App.swift`, and the `Codable` and `LocalizedStringKey`
  conformances are not modelled. They render or persist values and change no state.
- ArrayOps.Sort: Swift's `sort()` is not documented as stable. The model is a stable
  insertion sort, which is the order the expected states in TodosTests/TodosTests.swift assume.
- TodosLogic.DestinationInTodos: Swift traps when a destination equals the number of
  shown todos, as a drop at the end of the list produces. The model requires a destination
  below that count, and so does `TodosLogic.Reduce` for `move`. The trap and its correction
  are under Findings.
- TodosLogic.Reduce: `delete` and `move` trap in Swift on offsets out of range. The model
  requires the offsets to be in range and does not model the trap.
- TodosLogic.Reduce: `IdentifiedArrayOf` keeps ids unique as a type invariant. The model
  requires `UniqueIds` of its input instead, and proves that every action preserves it.
- OnboardingLogic.Reduce: like `TodosLogic.Reduce`, it requires `UniqueIds` of its input
  and proves that every action preserves it.

## Findings

| source | as written | input that shows it | evidently intended | confidence | as-written member | corrected member |
|---|---|---|---|---|---|---|
| Todos/Todos/TodosLogic.swift:43-45 | `delete` removes at the given offsets of `todos`. The list view sends offsets of `filteredTodos` (Todos/Todos/TodosView.swift:51-55). | Todos `[a, b, c]` with only `b` complete and filter `Completed`; the one shown row, `b`, is deleted (`delete([0])`). The result is `[b, c]`: `a`, which is not shown, is removed and `b` stays. | Translate the offsets through `filteredTodos` as `move` does, so that exactly the shown rows at those offsets are removed. For the example that gives `[a, c]`. | high; not executed | `TodosLogic.DeleteTakesRawOffsets` | `TodosLogic.DeleteShownRemovesShownRows` |
| Todos/Todos/TodosLogic.swift:61 | `move` reads `filteredTodos[destination]`. The list view reports a drop after the last row as the destination equal to the number of rows shown (Todos/Todos/TodosView.swift:56). | Todos `[a, b]`, filter `All`; drag `a` below `b` (`move([0], 2)`). `filteredTodos[2]` is out of bounds and the app traps. | A drop after the last shown row moves the dragged todos to the end of the list. For the example that gives `[b, a]`. | high; not executed | `TodosLogic.DropAfterLastRowTraps` | `TodosLogic.MoveAfterLastRow` |

`TodosLogic.Reduce` keeps the behaviour as written, because it models the code.
`TodosLogic.DeleteShown` is the corrected delete, and `DeleteShownRemovesShownRows` proves
the intended property about it. `TodosLogic.DestinationOrEnd` is the corrected destination
translation, and `MoveAfterLastRow` proves where a drop after the last row leaves the todos.
