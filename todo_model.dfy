/** The `Todo` entity and its `Comparable` ordering (Todos/Todo/TodoModel.swift). */
module TodoModel {

  /** `UUID`. Only equality of identifiers matters to the reducers, so any type with
      equality serves; a natural number is used. */
  type Uuid = nat

  datatype Todo = Todo(id: Uuid, description: string, isComplete: bool)

  /** `Todo(id:)`: the memberwise initializer, relying on the defaults of the other fields. */
  function New(id: Uuid): (t: Todo)
    ensures t.id == id && t.description == "" && !t.isComplete
  {
    Todo(id, "", false)
  }

  /** `static func <`: an incomplete todo sorts before a complete one. Only todos whose
      completion differs are ordered, so the order never separates a todo from itself. */
  function Less(a: Todo, b: Todo): (r: bool)
    ensures r ==> a.isComplete != b.isComplete
    ensures r ==> a != b
  {
    !a.isComplete && b.isComplete
  }

  /** Neither todo sorts before the other: they tie. */
  predicate Incomparable(a: Todo, b: Todo)
  {
    !Less(a, b) && !Less(b, a)
  }

  predicate IsComplete(t: Todo)
  {
    t.isComplete
  }

  predicate IsIncomplete(t: Todo)
  {
    !t.isComplete
  }

  /** `<` relates exactly an incomplete todo to a complete one, and todos with the same
      completion flag tie. */
  lemma LessExactly(a: Todo, b: Todo)
    ensures Less(a, b) <==> IsIncomplete(a) && IsComplete(b)
    ensures Incomparable(a, b) <==> a.isComplete == b.isComplete
  {
  }

  /** `<` is a strict weak ordering, as `sort()` requires of it: irreflexive, asymmetric,
      transitive, and ties are transitive too. */
  lemma LessIsStrictWeakOrder()
    ensures forall a :: !Less(a, a)
    ensures forall a, b :: Less(a, b) ==> !Less(b, a)
    ensures forall a, b, c :: Less(a, b) && Less(b, c) ==> Less(a, c)
    ensures forall a, b, c :: Incomparable(a, b) && Incomparable(b, c) ==> Incomparable(a, c)
  {
  }
}
