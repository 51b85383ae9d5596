/**
  Effect descriptors. A reducer of the Composable Architecture returns an `Effect` that the
  runtime later executes; here an effect is only a description of what the runtime is asked
  to do. The runtime itself (schedulers, cancellation, the store) is not modelled.
*/
module Effects {

  datatype Effect<A> =
      /** `.none`: nothing to run. */
    | None
      /** `Effect(value: action).delay(for: milliseconds)`: send `action` back after a delay. */
    | Delayed(action: A, milliseconds: nat)
      /** `Effect(value: action).debounce(id:for:)`: send `action` back after `milliseconds`,
          cancelling any pending effect registered under the same `id`. */
    | Debounced(id: string, action: A, milliseconds: nat)
      /** `.merge(first, second)`: run both. */
    | Merged(first: Effect<A>, second: Effect<A>)

  /** `Effect.map`: the same schedule, with every action it will send transformed by `f`. */
  function Map<A, B>(e: Effect<A>, f: A -> B): (r: Effect<B>)
    ensures r.None? <==> e.None?
    ensures r.Delayed? <==> e.Delayed?
    ensures r.Debounced? <==> e.Debounced?
    ensures e.Delayed? ==> r.milliseconds == e.milliseconds
    ensures e.Debounced? ==> r.id == e.id && r.milliseconds == e.milliseconds
  {
    match e
    case None => None
    case Delayed(a, ms) => Delayed(f(a), ms)
    case Debounced(id, a, ms) => Debounced(id, f(a), ms)
    case Merged(e1, e2) => Merged(Map(e1, f), Map(e2, f))
  }

  /** `.merge`, where merging with `.none` is left out of the description. Dropping only empty
      effects loses nothing: the merged effect sends what the first sends, then what the second
      sends. */
  function Merge<A>(first: Effect<A>, second: Effect<A>): (r: Effect<A>)
    ensures Sends(r) == Sends(first) + Sends(second)
  {
    if first.None? then
      assert Sends(first) + Sends(second) == Sends(second);
      second
    else if second.None? then
      assert Sends(first) + Sends(second) == Sends(first);
      first
    else Merged(first, second)
  }

  /** The actions an effect will send back to the store, in the order its description lists
      them. */
  function Sends<A>(e: Effect<A>): seq<A>
  {
    match e
    case None => []
    case Delayed(a, _) => [a]
    case Debounced(_, a, _) => [a]
    case Merged(e1, e2) => Sends(e1) + Sends(e2)
  }

  /** Mapping an effect transforms each action it sends and sends no more and no fewer. */
  lemma {:induction false} MapSends<A, B>(e: Effect<A>, f: A -> B)
    ensures |Sends(Map(e, f))| == |Sends(e)|
    ensures forall i :: 0 <= i < |Sends(e)| ==> Sends(Map(e, f))[i] == f(Sends(e)[i])
  {
    match e
    case None =>
    case Delayed(_, _) =>
    case Debounced(_, _, _) =>
    case Merged(e1, e2) =>
      MapSends(e1, f);
      MapSends(e2, f);
  }
}
