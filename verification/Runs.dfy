/** Runs of a step system: states joined by steps. */
module Runs {
  ghost predicate Joined<S, T>(moves: (S, T, S) -> bool, states: seq<S>, steps: seq<T>) {
    && |states| == |steps| + 1
    && forall k :: 0 <= k < |steps| ==> moves(states[k], steps[k], states[k + 1])
  }

  lemma Extend<S, T>(moves: (S, T, S) -> bool, states: seq<S>, steps: seq<T>, step: T, next: S)
    returns (states': seq<S>, steps': seq<T>)
    requires Joined(moves, states, steps) && moves(states[|steps|], step, next)
    ensures states' == states + [next] && steps' == steps + [step]
    ensures Joined(moves, states', steps') && states'[|steps'|] == next && states'[0] == states[0]
  {
    states', steps' := states + [next], steps + [step];
    forall k | 0 <= k < |steps'| ensures moves(states'[k], steps'[k], states'[k + 1]) {
      if k < |steps| {
        assert moves(states[k], steps[k], states[k + 1]);
      }
    }
  }
}
