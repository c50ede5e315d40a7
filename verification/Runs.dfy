/** Runs of a state machine: from a start state, one event per step. */
module Runs {

  ghost predicate IsRun<S(!new), E(!new)>(start: S, step: (S, S, E) -> bool, run: seq<S>, events: seq<E>) {
    && |run| == |events| + 1 && run[0] == start
    && forall i :: 0 <= i < |events| ==> step(run[i], run[i + 1], events[i])
  }

  /** A run goes on with any step from its last state. */
  lemma Extended<S(!new), E(!new)>(start: S, step: (S, S, E) -> bool, run: seq<S>, events: seq<E>, s: S, e: E)
    requires IsRun(start, step, run, events) && step(run[|run| - 1], s, e)
    ensures IsRun(start, step, run + [s], events + [e])
  {
    var run', events' := run + [s], events + [e];
    forall i | 0 <= i < |events'| ensures step(run'[i], run'[i + 1], events'[i]) {
      if i < |events| {
        assert step(run[i], run[i + 1], events[i]);
      }
    }
  }
}
