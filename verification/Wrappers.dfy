/** Result and option types shared by every component model. */
module Wrappers {
  datatype Option<+T> = None | Some(value: T)

  datatype Result<+T, +E> = Ok(value: T) | Err(error: E)

  /** A predicate kept as one value, so that a proof carries it whole instead of conjunct by conjunct. */
  datatype Verdict = Sound | Unsound

  /** Induction along a run, on the verdict alone. */
  lemma {:induction false} StepByStep(at: nat -> Verdict, n: nat)
    requires at(0).Sound? && forall i: nat :: i < n && at(i).Sound? ==> at(i + 1).Sound?
    ensures at(n).Sound?
  {
    if n > 0 {
      StepByStep(at, n - 1);
      assert at(n - 1).Sound?;
    }
  }
}
