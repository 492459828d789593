/** The circuit breaker for a whole service, and what its one counter means. */
module CircuitBreakers {
  /** How bad a stretch of outcomes is: each failure counts one, each success takes two away. */
  ghost function Badness(outcomes: seq<bool>): int {
    if outcomes == [] then 0
    else Badness(outcomes[..|outcomes| - 1]) + if outcomes[|outcomes| - 1] then -2 else 1
  }

  /** The counter as the code keeps it. */
  ghost function Counter(outcomes: seq<bool>): nat {
    if outcomes == [] then 0
    else
      var c := Counter(outcomes[..|outcomes| - 1]);
      if !outcomes[|outcomes| - 1] then c + 1 else if c < 2 then 0 else c - 2
  }

  /** Some stretch that ends now is at least that bad. */
  ghost predicate Reaches(outcomes: seq<bool>, threshold: int) {
    exists k :: 0 <= k <= |outcomes| && Badness(outcomes[k..]) >= threshold
  }

  lemma BadnessGrows(outcomes: seq<bool>, k: nat, last: bool)
    requires k <= |outcomes|
    ensures Badness((outcomes + [last])[k..]) == Badness(outcomes[k..]) + if last then -2 else 1
  {
    var longer := (outcomes + [last])[k..];
    assert longer == outcomes[k..] + [last];
    assert longer[..|longer| - 1] == outcomes[k..];
  }

  lemma CounterGrows(outcomes: seq<bool>, last: bool)
    ensures Counter(outcomes + [last])
            == if !last then Counter(outcomes) + 1 else if Counter(outcomes) < 2 then 0 else Counter(outcomes) - 2
  {
    assert (outcomes + [last])[..|outcomes|] == outcomes;
  }

  /** The counter is the badness of the worst stretch that ends now, the empty one included. */
  lemma {:induction false} CounterIsWorstStretch(outcomes: seq<bool>)
    ensures forall k | 0 <= k <= |outcomes| :: Badness(outcomes[k..]) <= Counter(outcomes)
    ensures exists k :: 0 <= k <= |outcomes| && Badness(outcomes[k..]) == Counter(outcomes)
    decreases |outcomes|
  {
    var n := |outcomes|;
    assert outcomes[n..] == [];
    if n > 0 {
      var shorter, last := outcomes[..n - 1], outcomes[n - 1];
      assert shorter + [last] == outcomes;
      CounterIsWorstStretch(shorter);
      forall k | 0 <= k < n ensures Badness(outcomes[k..]) == Badness(shorter[k..]) + if last then -2 else 1 {
        BadnessGrows(shorter, k, last);
      }
      var w :| 0 <= w <= n - 1 && Badness(shorter[w..]) == Counter(shorter);
      assert Badness(outcomes[if Counter(outcomes) == 0 then n else w..]) == Counter(outcomes);
    }
  }

  /** So the test on the counter is a test on the whole history since the last opening. */
  lemma CounterTestsHistory(outcomes: seq<bool>, threshold: int)
    ensures Counter(outcomes) >= threshold <==> Reaches(outcomes, threshold)
  {
    CounterIsWorstStretch(outcomes);
  }

  class ServiceCircuitBreaker {
    const failureThreshold: int
    const resetMs: real
    var failures: nat
    var successes: nat
    var openUntil: real
    /** Outcomes since the breaker last tripped, or since the beginning. */
    ghost var recent: seq<bool>

    /** Since it last tripped the breaker never had a reason to open. */
    ghost predicate Valid() reads this {
      && failures == Counter(recent)
      && forall n | 0 < n <= |recent| :: !recent[n - 1] ==> !Reaches(recent[..n], failureThreshold)
    }

    constructor (failureThreshold: int, resetMs: real)
      ensures Valid() && recent == [] && openUntil == 0.0
      ensures this.failureThreshold == failureThreshold && this.resetMs == resetMs
    {
      this.failureThreshold, this.resetMs := failureThreshold, resetMs;
      failures, successes, openUntil, recent := 0, 0, 0.0, [];
    }

    predicate Open(now: real) reads this { now < openUntil }

    /** A failure opens the breaker exactly when some stretch of outcomes up to it is as bad as the threshold. */
    method Record(success: bool, now: real) returns (ghost tripped: bool)
      requires Valid()
      modifies this
      ensures Valid()
      ensures tripped <==> !success && Reaches(old(recent) + [success], failureThreshold)
      ensures recent == if tripped then [] else old(recent) + [success]
      ensures successes == old(successes) + if success then 1 else 0
      ensures openUntil == if tripped then now + resetMs
                           else if success && 2 * Counter(recent) < failureThreshold then 0.0
                           else old(openUntil)
    {
      CounterGrows(recent, success);
      CounterTestsHistory(recent + [success], failureThreshold);
      if success || !Reaches(recent + [success], failureThreshold) {
        KeepsClear(recent, success, failureThreshold);
      }
      tripped := false;
      recent := recent + [success];
      if success {
        successes := successes + 1;
        failures := if failures < 2 then 0 else failures - 2;
        if 2 * failures < failureThreshold {
          openUntil := 0.0;
        }
        return;
      }
      failures := failures + 1;
      if failures >= failureThreshold {
        openUntil := now + resetMs;
        failures := 0;
        recent := [];
        tripped := true;
      }
    }
  }

  lemma KeepsClear(recent: seq<bool>, success: bool, threshold: int)
    requires forall n | 0 < n <= |recent| :: !recent[n - 1] ==> !Reaches(recent[..n], threshold)
    requires success || !Reaches(recent + [success], threshold)
    ensures var r := recent + [success];
            forall n | 0 < n <= |r| :: !r[n - 1] ==> !Reaches(r[..n], threshold)
  {
    var r := recent + [success];
    assert r[..|r|] == r;
    assert forall n | 0 < n <= |recent| :: r[..n] == recent[..n];
  }
}
