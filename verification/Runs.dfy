/** Runs of a state machine: the list of what happened, oldest first. */
module Runs {
  import opened Text

  /** The state after `tr`; `None` when some event could not happen. */
  function After<S, E>(step: (S, E) -> Option<S>, s0: S, tr: seq<E>): Option<S> {
    if tr == [] then Some(s0)
    else
      match After(step, s0, tr[..|tr| - 1])
      case None => None
      case Some(s) => step(s, tr[|tr| - 1])
  }

  /** Every prefix of a run is one, and its next event can happen. */
  lemma {:induction false} PrefixRuns<S, E>(step: (S, E) -> Option<S>, s0: S, tr: seq<E>, i: nat)
    requires After(step, s0, tr).Some? && i < |tr|
    ensures After(step, s0, tr[..i]).Some? && step(After(step, s0, tr[..i]).value, tr[i]).Some?
  {
    if i < |tr| - 1 {
      PrefixRuns(step, s0, tr[..|tr| - 1], i);
      assert tr[..|tr| - 1][..i] == tr[..i];
    }
  }

  lemma Extend<S, E>(step: (S, E) -> Option<S>, s0: S, tr: seq<E>, e: E)
    requires After(step, s0, tr).Some?
    ensures After(step, s0, tr + [e]) == step(After(step, s0, tr).value, e)
  {
    assert (tr + [e])[..|tr + [e]| - 1] == tr;
  }
}
