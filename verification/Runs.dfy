/** Runs of a state machine, and induction over them. */
module Runs {
  /** Each step leads from one state to the next. */
  ghost predicate Run<S, T>(states: seq<S>, steps: seq<T>, next: (S, T, S) -> bool) {
    && |states| == |steps| + 1
    && forall i :: 0 <= i < |steps| ==> next(states[i], steps[i], states[i + 1])
  }

  /** What holds of one state and is kept by every step holds from that state on. */
  lemma {:induction false} Keeps<S, T>(states: seq<S>, steps: seq<T>, next: (S, T, S) -> bool, inv: S -> bool, from: nat, k: nat)
    requires Run(states, steps, next) && from <= k < |states| && inv(states[from])
    requires forall s, step, t :: inv(s) && next(s, step, t) ==> inv(t)
    ensures inv(states[k])
    decreases k
  {
    if k > from {
      Keeps(states, steps, next, inv, from, k - 1);
      assert next(states[k - 1], steps[k - 1], states[k]);
    }
  }

  /** One step more. */
  lemma Extend<S, T>(states: seq<S>, steps: seq<T>, next: (S, T, S) -> bool, step: T, t: S)
    requires Run(states, steps, next) && next(states[|steps|], step, t)
    ensures Run(states + [t], steps + [step], next)
  {
    var longer, all := states + [t], steps + [step];
    forall i | 0 <= i < |all| ensures next(longer[i], all[i], longer[i + 1]) {
      if i < |steps| {
        assert next(states[i], steps[i], states[i + 1]);
      }
    }
  }
}
