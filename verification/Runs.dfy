/** Runs of a labelled transition system, and what induction over them gives. */
module Runs {

  ghost predicate IsRun<S(!new), E(!new)>(step: (S, E, S) -> bool, run: seq<S>, events: seq<E>) {
    && |run| == |events| + 1
    && forall i :: 0 <= i < |events| ==> step(run[i], events[i], run[i + 1])
  }

  ghost predicate Inductive<S(!new), E(!new)>(step: (S, E, S) -> bool, inv: S -> bool) {
    forall s, e, t :: inv(s) && step(s, e, t) ==> inv(t)
  }

  /** What every step keeps holds from any state of a run on. */
  lemma {:induction false} Kept<S(!new), E(!new)>(
      step: (S, E, S) -> bool, inv: S -> bool, run: seq<S>, events: seq<E>, i: nat, j: nat)
    requires IsRun(step, run, events) && Inductive(step, inv)
    requires i <= j < |run| && inv(run[i])
    ensures inv(run[j])
    decreases j
  {
    if i < j {
      Kept(step, inv, run, events, i, j - 1);
      assert step(run[j - 1], events[j - 1], run[j]);
    }
  }

  /** A run cut short is a run. */
  lemma {:induction false} Prefix<S(!new), E(!new)>(step: (S, E, S) -> bool, run: seq<S>, events: seq<E>)
    requires IsRun(step, run, events) && 0 < |events|
    ensures var n := |events| - 1;
            IsRun(step, run[..n + 1], events[..n]) && step(run[n], events[n], run[n + 1])
  {
  }

  lemma {:induction false} Extend<S(!new), E(!new)>(step: (S, E, S) -> bool, s: S, e: E, run: seq<S>, events: seq<E>)
    requires IsRun(step, run, events) && step(s, e, run[0])
    ensures IsRun(step, [s] + run, [e] + events)
    ensures ([s] + run)[|[e] + events|] == run[|events|]
  {
    var longer, later := [s] + run, [e] + events;
    forall i | 0 <= i < |later| ensures step(longer[i], later[i], longer[i + 1]) {
      if i != 0 {
        assert step(run[i - 1], events[i - 1], run[i]);
      }
    }
  }
}
