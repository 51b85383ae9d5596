/** The steps of the onboarding flow and its state (Todos/Onboarding/OnboardingModel.swift). */
module OnboardingModel {
  import opened Wrappers
  import opened TodosModel

  /** `OnboardingStep`, in the order the flow visits them. */
  datatype OnboardingStep = Actions | Filters | Todos

  /** The position of a step in the flow: actions before filters before todos. */
  function Rank(step: OnboardingStep): nat
  {
    match step
    case Actions => 0
    case Filters => 1
    case Todos => 2
  }

  /** Distinct steps stand at distinct positions. */
  lemma RankInjective(a: OnboardingStep, b: OnboardingStep)
    ensures Rank(a) == Rank(b) ==> a == b
  {
  }

  /** `next`: the step one position further on; there is none after the last. */
  function Next(step: OnboardingStep): (r: Option<OnboardingStep>)
    ensures r.Some? <==> Rank(step) < 2
    ensures r.Some? ==> Rank(r.value) == Rank(step) + 1
  {
    match step
    case Actions => Some(Filters)
    case Filters => Some(Todos)
    case Todos => None
  }

  /** `previous`: the step one position back; the first step is its own previous. */
  function Previous(step: OnboardingStep): (r: OnboardingStep)
    ensures Rank(r) == if Rank(step) == 0 then 0 else Rank(step) - 1
  {
    match step
    case Actions => step
    case Filters => Actions
    case Todos => Filters
  }

  /** `previous` undoes `next` wherever `next` is defined. */
  lemma PreviousUndoesNext(step: OnboardingStep)
    requires Next(step).Some?
    ensures Previous(Next(step).value) == step
  {
    RankInjective(Previous(Next(step).value), step);
  }

  /** `step?.next`: optional chaining, so an absent step stays absent. */
  function NextOf(step: Option<OnboardingStep>): (r: Option<OnboardingStep>)
    ensures step.None? ==> r.None?
    ensures step.Some? ==> r == Next(step.value)
  {
    match step
    case None => None
    case Some(s) => Next(s)
  }

  /** `step?.previous`: optional chaining; `previous` itself is total, so only an absent step
      gives an absent result. */
  function PreviousOf(step: Option<OnboardingStep>): (r: Option<OnboardingStep>)
    ensures r.Some? <==> step.Some?
    ensures step.Some? ==> r.value == Previous(step.value)
  {
    match step
    case None => None
    case Some(s) => Some(Previous(s))
  }

  /** The step after `n` taps of the next button, starting from `step`. */
  function NextTimes(step: Option<OnboardingStep>, n: nat): Option<OnboardingStep>
    decreases n
  {
    if n == 0 then step else NextTimes(NextOf(step), n - 1)
  }

  /** Once the flow has no step, further taps leave it without one. */
  lemma {:induction false} NextTimesOfNone(n: nat)
    ensures NextTimes(None, n) == None
  {
    if n != 0 {
      NextTimesOfNone(n - 1);
    }
  }

  /** From any step, `next` gives a step exactly as long as fewer taps were made than there are
      steps left, counting the current one. */
  lemma {:induction false} NextTimesLeaves(step: OnboardingStep, n: nat)
    ensures NextTimes(Some(step), n).Some? <==> n < 3 - Rank(step)
    ensures NextTimes(Some(step), n).Some? ==> Rank(NextTimes(Some(step), n).value) == Rank(step) + n
    decreases n
  {
    if n != 0 {
      match Next(step)
      case None =>
        NextTimesOfNone(n - 1);
      case Some(s) =>
        NextTimesLeaves(s, n - 1);
    }
  }

  /** Starting at `actions`, the flow ends after exactly three taps of the next button. */
  lemma FlowEndsAfterThreeSteps()
    ensures NextTimes(Some(Actions), 3) == None
    ensures forall n: nat :: n < 3 ==> NextTimes(Some(Actions), n).Some?
  {
    forall n: nat | n <= 3
      ensures NextTimes(Some(Actions), n).Some? <==> n < 3
    {
      NextTimesLeaves(Actions, n);
    }
  }

  /** `OnboardingState`. */
  datatype OnboardingState = OnboardingState(todosState: TodosState, step: Option<OnboardingStep>)

  /** `OnboardingState()`: the flow starts at `actions` on the placeholder todo list, which is
      passed in here. */
  function Initial(placeholder: TodosState): (r: OnboardingState)
    ensures r.step == Some(Actions) && Rank(r.step.value) == 0
    ensures r.todosState == placeholder
  {
    OnboardingState(placeholder, Some(Actions))
  }
}
