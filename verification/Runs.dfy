/** Runs of a transition system, and the one induction every lock in this project uses. */
module Runs {

  /** A finite run: it starts in an initial state and every state follows from the one before. */
  ghost predicate IsRun<S(!new)>(init: S -> bool, next: (S, S) -> bool, run: seq<S>) {
    && |run| > 0
    && init(run[0])
    && forall i :: 0 <= i < |run| - 1 ==> next(run[i], run[i + 1])
  }

  ghost predicate Inductive<S(!new)>(init: S -> bool, next: (S, S) -> bool, inv: S -> bool) {
    && (forall s :: init(s) ==> inv(s))
    && (forall s, s' :: inv(s) && next(s, s') ==> inv(s'))
  }

  lemma StepOf<S(!new)>(init: S -> bool, next: (S, S) -> bool, run: seq<S>, i: nat)
    requires IsRun(init, next, run) && i + 1 < |run|
    ensures next(run[i], run[i + 1])
  {
  }

  /** An inductive invariant holds at every position of every run. */
  lemma {:induction false} Invariance<S(!new)>(
    init: S -> bool, next: (S, S) -> bool, inv: S -> bool, run: seq<S>, i: nat)
    requires IsRun(init, next, run) && i < |run|
    requires Inductive(init, next, inv)
    ensures inv(run[i])
  {
    if i > 0 {
      Invariance(init, next, inv, run, i - 1);
      assert next(run[i - 1], run[i - 1 + 1]);
    }
  }

  /** What every step of a stretch keeps holds at its end if it holds at its start. */
  lemma {:induction false} Persistence<S(!new)>(run: seq<S>, p: S -> bool, i: nat, j: nat)
    requires i <= j < |run| && p(run[i])
    requires forall k :: i <= k < j && p(run[k]) ==> p(run[k + 1])
    ensures p(run[j])
    decreases j - i
  {
    if i < j {
      Persistence(run, p, i, j - 1);
      assert p(run[j - 1 + 1]);
    }
  }

  /** A run goes on with any state that may follow its last one. */
  lemma RunExtends<S(!new)>(init: S -> bool, next: (S, S) -> bool, run: seq<S>, s: S)
    requires IsRun(init, next, run) && next(run[|run| - 1], s)
    ensures IsRun(init, next, run + [s])
  {
    var run' := run + [s];
    forall i | 0 <= i < |run'| - 1 ensures next(run'[i], run'[i + 1]) {
      if i + 1 < |run| {
        StepOf(init, next, run, i);
      }
    }
  }

  function One(b: bool): nat {
    if b then 1 else 0
  }

  /** How many of the steps from position i to position j are of a certain kind. */
  ghost function Occurrences<S(!new)>(run: seq<S>, kind: (S, S) -> bool, i: nat, j: nat): nat
    requires i <= j < |run|
    decreases j
  {
    if i == j then 0 else Occurrences(run, kind, i, j - 1) + One(kind(run[j - 1], run[j]))
  }

  /** A measure that no step of a stretch raises, and that steps of a kind lower, bounds how often they occur. */
  lemma {:induction false} MeasureBounds<S(!new)>(
    run: seq<S>, kind: (S, S) -> bool, measure: S -> nat, i: nat, j: nat)
    requires i <= j < |run|
    requires forall k: nat :: i <= k < j ==> One(kind(run[k], run[k + 1])) + measure(run[k + 1]) <= measure(run[k])
    ensures Occurrences(run, kind, i, j) + measure(run[j]) <= measure(run[i])
    decreases j
  {
    if i < j {
      MeasureBounds(run, kind, measure, i, j - 1);
      var k: nat := j - 1;
      assert One(kind(run[k], run[k + 1])) + measure(run[k + 1]) <= measure(run[k]);
    }
  }
}
