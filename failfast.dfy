/**
 * A fail-fast sequence of steps: the `?` operator after every step of an
 * `async fn` makes the function run its steps in order and return at the
 * first one that fails, so that no later step runs.
 */
module FailFast {

  /** Every step of `oks` succeeds. */
  predicate AllOk(oks: seq<bool>) {
    forall i :: 0 <= i < |oks| ==> oks[i]
  }

  /**
   * Running a fail-fast sequence whose step i would succeed exactly when
   * `oks[i]` ran the first `n` steps and ended with outcome `ok`: every step
   * before the last one run succeeded, the outcome is that of the last step
   * run, and a successful run went through every step.
   */
  predicate StoppedAtFirstFailure(oks: seq<bool>, n: nat, ok: bool) {
    && 1 <= n <= |oks|
    && (forall i :: 0 <= i < n - 1 ==> oks[i])
    && ok == oks[n - 1]
    && (ok ==> n == |oks|)
  }

  /** The number of steps a fail-fast run executes. */
  function StepsRun(oks: seq<bool>): (n: nat)
    requires oks != []
    ensures 1 <= n <= |oks| && StoppedAtFirstFailure(oks, n, oks[n - 1])
  {
    if !oks[0] || |oks| == 1 then 1 else 1 + StepsRun(oks[1..])
  }

  /** The run's outcome is success exactly when every step succeeds. */
  lemma OkIffAllOk(oks: seq<bool>, n: nat, ok: bool)
    requires StoppedAtFirstFailure(oks, n, ok)
    ensures ok <==> AllOk(oks)
  {
  }

  /** A fail-fast run is determined by the step outcomes: it is the one `StepsRun` computes. */
  lemma RunIsDetermined(oks: seq<bool>, n: nat, ok: bool)
    requires StoppedAtFirstFailure(oks, n, ok)
    ensures n == StepsRun(oks) && ok == oks[StepsRun(oks) - 1]
  {
  }

  /** No step after a failing one runs: a step that ran and failed is the last one run. */
  lemma NothingAfterFailure(oks: seq<bool>, n: nat, ok: bool, i: nat)
    requires StoppedAtFirstFailure(oks, n, ok)
    requires i < n && !oks[i]
    ensures i == n - 1 && !ok
  {
  }
}
