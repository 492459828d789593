/** The bounded concurrent map: runners that take turns, in any order, on one shared cursor. */
module ConcurrentMap {
  import opened Common

  datatype Settled<R> = Done(value: R) | Failed | Aborted

  /** Where a runner stands between two awaits: about to claim an index, waiting for a worker, or returned. */
  datatype Runner = Idle | Running(index: nat) | Returned

  ghost function Weight(r: Runner): nat {
    match r
    case Idle => 1
    case Running(_) => 2
    case Returned => 0
  }

  ghost function Weights(runners: seq<Runner>): nat {
    if runners == [] then 0 else Weights(runners[..|runners| - 1]) + Weight(runners[|runners| - 1])
  }

  /** Runners that wait for a worker. */
  ghost function InFlight(runners: seq<Runner>): (n: nat)
    ensures n <= |runners|
  {
    if runners == [] then 0
    else InFlight(runners[..|runners| - 1]) + if runners[|runners| - 1].Running? then 1 else 0
  }

  lemma {:induction false} WeightsUpdate(runners: seq<Runner>, k: nat, r: Runner)
    requires k < |runners|
    ensures Weights(runners[k := r]) == Weights(runners) - Weight(runners[k]) + Weight(r)
  {
    var n := |runners| - 1;
    if k == n {
      assert runners[k := r][..n] == runners[..n];
    } else {
      assert runners[k := r][..n] == runners[..n][k := r];
      WeightsUpdate(runners[..n], k, r);
    }
  }

  /** The first indices, each once and in order. */
  ghost predicate FirstOnes(indices: seq<nat>) { forall j | 0 <= j < |indices| :: indices[j] == j }

  /** What a slot may hold: what its own item's worker came to, at some moment, if that worker was started. */
  ghost predicate FromItem<T, R>(items: seq<T>, outcome: (T, nat, nat) -> Settled<R>, started: seq<nat>, i: nat, slot: Settled<R>)
    requires i < |items|
  {
    if i in started then exists moment: nat :: slot == outcome(items[i], i, moment) else slot == Aborted
  }

  /** Between two steps: what the shared cursor, the runners and the slots have to do with each other. */
  ghost predicate Consistent<T, R>(items: seq<T>, outcome: (T, nat, nat) -> Settled<R>, cursor: nat, runners: seq<Runner>,
                                   slots: seq<Option<Settled<R>>>, started: seq<nat>)
  {
    && |slots| == |items|
    && FirstOnes(started) && |started| <= Min(cursor, |items|)
    && (forall k | 0 <= k < |runners| && runners[k].Running? :: runners[k].index in started && slots[runners[k].index].None?)
    && (forall k, m | 0 <= k < m < |runners| && runners[k].Running? && runners[m].Running? :: runners[k].index != runners[m].index)
    && (forall k | 0 <= k < |runners| && runners[k].Returned? :: cursor >= |items|)
    && (forall i: nat | i < |items| && cursor <= i :: slots[i].None?)
    && (forall i: nat | i < |items| && i < cursor && slots[i].None? :: exists k :: 0 <= k < |runners| && runners[k] == Running(i))
    && (forall i: nat | i < |items| && slots[i].Some? :: FromItem(items, outcome, started, i, slots[i].value))
  }

  /** A runner claims the next index and starts its worker, or leaves the slot to the abort. */
  lemma ClaimKeeps<T, R>(items: seq<T>, outcome: (T, nat, nat) -> Settled<R>, cursor: nat, runners: seq<Runner>,
                         slots: seq<Option<Settled<R>>>, started: seq<nat>, k: nat, aborted: bool)
    requires Consistent(items, outcome, cursor, runners, slots, started)
    requires k < |runners| && runners[k].Idle? && cursor < |items| && (!aborted ==> |started| == cursor)
    ensures aborted ==> Consistent(items, outcome, cursor + 1, runners, slots[cursor := Some(Aborted)], started)
    ensures !aborted ==> Consistent(items, outcome, cursor + 1, runners[k := Running(cursor)], slots, started + [cursor])
  {
    if aborted {
      assert cursor !in started;
    } else {
      var more, now := started + [cursor], runners[k := Running(cursor)];
      assert now[k] == Running(cursor);
      forall i: nat | i < |items| && i < cursor && slots[i].None? ensures exists m :: 0 <= m < |now| && now[m] == Running(i) {
        var m :| 0 <= m < |runners| && runners[m] == Running(i);
        assert now[m] == Running(i);
      }
      forall i: nat | i < |items| && slots[i].Some? ensures FromItem(items, outcome, more, i, slots[i].value) {
        assert FromItem(items, outcome, started, i, slots[i].value);
        assert i != cursor;
        assert i in more <==> i in started;
      }
    }
  }

  /** A worker settles and its runner goes on. */
  lemma SettleKeeps<T, R>(items: seq<T>, outcome: (T, nat, nat) -> Settled<R>, cursor: nat, runners: seq<Runner>,
                          slots: seq<Option<Settled<R>>>, started: seq<nat>, k: nat, moment: nat)
    requires Consistent(items, outcome, cursor, runners, slots, started)
    requires k < |runners| && runners[k].Running?
    ensures runners[k].index < |items|
    ensures var i := runners[k].index;
            Consistent(items, outcome, cursor, runners[k := Idle], slots[i := Some(outcome(items[i], i, moment))], started)
  {
    var i := runners[k].index;
    var now, filled := runners[k := Idle], slots[i := Some(outcome(items[i], i, moment))];
    forall j: nat | j < |items| && j < cursor && filled[j].None? ensures exists m :: 0 <= m < |now| && now[m] == Running(j) {
      var m :| 0 <= m < |runners| && runners[m] == Running(j);
      assert now[m] == Running(j);
    }
    assert FromItem(items, outcome, started, i, filled[i].value);
  }

  /** A runner that finds no index left returns. */
  lemma ReturnKeeps<T, R>(items: seq<T>, outcome: (T, nat, nat) -> Settled<R>, cursor: nat, runners: seq<Runner>,
                          slots: seq<Option<Settled<R>>>, started: seq<nat>, k: nat)
    requires Consistent(items, outcome, cursor, runners, slots, started)
    requires k < |runners| && runners[k].Idle? && cursor >= |items|
    ensures Consistent(items, outcome, cursor + 1, runners[k := Returned], slots, started)
  {
    var now := runners[k := Returned];
    forall i: nat | i < |items| && i < cursor && slots[i].None? ensures exists m :: 0 <= m < |now| && now[m] == Running(i) {
      var m :| 0 <= m < |runners| && runners[m] == Running(i);
      assert now[m] == Running(i);
    }
  }

  lemma NothingClaimed<T, R>(items: seq<T>, outcome: (T, nat, nat) -> Settled<R>, runners: seq<Runner>, slots: seq<Option<Settled<R>>>)
    requires forall k | 0 <= k < |runners| :: runners[k].Idle?
    requires |slots| == |items| && forall k | 0 <= k < |slots| :: slots[k].None?
    ensures Consistent(items, outcome, 0, runners, slots, [])
  {
  }

  lemma AllReturned<T, R>(items: seq<T>, outcome: (T, nat, nat) -> Settled<R>, cursor: nat, runners: seq<Runner>,
                          slots: seq<Option<Settled<R>>>, started: seq<nat>)
    requires Consistent(items, outcome, cursor, runners, slots, started)
    requires runners != [] && forall k | 0 <= k < |runners| :: runners[k].Returned?
    ensures cursor >= |items| == |slots|
    ensures forall i: nat | i < |items| :: slots[i].Some? && FromItem(items, outcome, started, i, slots[i].value)
  {
    assert runners[0].Returned?;
  }

  /** The first runner from `from` on, going round, that has not returned. */
  method Pick(runners: seq<Runner>, from: nat) returns (k: Option<nat>)
    ensures k.Some? ==> k.value < |runners| && !runners[k.value].Returned?
    ensures k.None? ==> forall m | 0 <= m < |runners| :: runners[m].Returned?
  {
    if from < |runners| && !runners[from].Returned? {
      return Some(from);
    }
    for m := 0 to |runners|
      invariant forall j | 0 <= j < m :: runners[j].Returned?
    {
      if !runners[m].Returned? {
        return Some(m);
      }
    }
    return None;
  }

  /** Claims come one at a time. */
  ghost predicate InSequence(claims: seq<nat>) { forall i, j | 0 <= i < j < |claims| :: claims[i] < claims[j] }

  /** Exactly the items claimed before the abort have their workers started. */
  ghost predicate StartedBefore(claims: seq<nat>, started: seq<nat>, abortsAt: Option<nat>) {
    && |started| <= |claims|
    && forall i | 0 <= i < |claims| :: i < |started| <==> abortsAt.None? || claims[i] < abortsAt.value
  }

  lemma OneMoreClaim(claims: seq<nat>, started: seq<nat>, moment: nat, abortsAt: Option<nat>)
    requires InSequence(claims) && StartedBefore(claims, started, abortsAt)
    requires forall i | 0 <= i < |claims| :: claims[i] < moment
    ensures InSequence(claims + [moment])
    ensures abortsAt.Some? && abortsAt.value <= moment ==> StartedBefore(claims + [moment], started, abortsAt)
    ensures !(abortsAt.Some? && abortsAt.value <= moment) ==>
              |started| == |claims| && StartedBefore(claims + [moment], started + [|claims|], abortsAt)
  {
    assert |started| < |claims| ==> claims[|started|] < moment;
  }

  /**
   * Runs every item through its worker. Which runner moves next and what a worker makes of its item at which moment are
   * arbitrary; moments are counted in steps, and the signal is aborted from the moment `abortsAt` on, if ever. `claims`
   * lists the moment each index was claimed at, `started` the indices whose worker was started, in order, and `peak` is
   * the largest number of workers in flight. There are as many runners as the limit allows, but no more than items.
   */
  method MapWithConcurrency<T, R>(items: seq<T>, limit: int, outcome: (T, nat, nat) -> Settled<R>, abortsAt: Option<nat>)
    returns (results: seq<Settled<R>>, ghost started: seq<nat>, ghost claims: seq<nat>, ghost peak: nat, ghost crew: nat)
    ensures |results| == |items|
    ensures forall i: nat | i < |items| :: FromItem(items, outcome, started, i, results[i])
    ensures FirstOnes(started) && |started| <= |items| && (abortsAt.None? ==> |started| == |items|)
    ensures |claims| == |items| && InSequence(claims) && StartedBefore(claims, started, abortsAt)
    ensures peak <= crew <= |items|
    ensures items != [] ==> crew == if limit < 1 then 1 else if limit < |items| then limit else |items|
  {
    hide Consistent, FromItem, Weights, StartedBefore, InSequence;
    started, claims, peak, crew := [], [], 0, 0;
    assert InSequence([]) && StartedBefore([], [], abortsAt) by { NothingClaimedYet(abortsAt); }
    var total := |items|;
    if total == 0 {
      return [], [], [], 0, 0;
    }
    var concurrency := Max(1, Min(if limit == 0 then 1 else limit, total));
    var runners := seq(concurrency, k => Idle);
    crew := |runners|;
    var slots: seq<Option<Settled<R>>> := seq(total, k => None);
    var cursor, moment := 0, 0;
    NothingClaimed(items, outcome, runners, slots);
    while true
      invariant |runners| == crew && peak <= crew && |slots| == total
      invariant FirstOnes(started) && |started| <= Min(cursor, total)
      invariant Consistent(items, outcome, cursor, runners, slots, started)
      invariant |claims| == Min(cursor, total) && InSequence(claims) && StartedBefore(claims, started, abortsAt)
      invariant forall i | 0 <= i < |claims| :: claims[i] < moment
      invariant abortsAt.None? ==> |started| == |claims|
      decreases Weights(runners) + 2 * (total - Min(cursor, total))
    {
      var from: nat := *;
      var next := Pick(runners, from);
      if next.None? {
        break;
      }
      var k := next.value;
      if runners[k].Running? {
        var i := runners[k].index;
        SettleKeeps(items, outcome, cursor, runners, slots, started, k, moment);
        WeightsUpdate(runners, k, Idle);
        slots := slots[i := Some(outcome(items[i], i, moment))];
        runners := runners[k := Idle];
      } else {
        var index := cursor;
        if index >= total {
          ReturnKeeps(items, outcome, cursor, runners, slots, started, k);
          WeightsUpdate(runners, k, Returned);
          runners := runners[k := Returned];
        } else {
          var aborted := abortsAt.Some? && abortsAt.value <= moment;
          OneMoreClaim(claims, started, moment, abortsAt);
          ClaimKeeps(items, outcome, cursor, runners, slots, started, k, aborted);
          claims := claims + [moment];
          if aborted {
            slots := slots[index := Some(Aborted)];
          } else {
            WeightsUpdate(runners, k, Running(index));
            runners, started := runners[k := Running(index)], started + [index];
          }
        }
        cursor := cursor + 1;
      }
      peak := Max(peak, InFlight(runners));
      moment := moment + 1;
    }
    AllReturned(items, outcome, cursor, runners, slots, started);
    results := seq(total, i requires 0 <= i < total => slots[i].value);
  }

  lemma NothingClaimedYet(abortsAt: Option<nat>)
    ensures InSequence([]) && StartedBefore([], [], abortsAt)
  {
  }
}

/** Retries with a hard cap on attempts. */
module Retry {
  import opened Common

  datatype Attempt<T, E> = Done(value: T) | Failed(error: E) | Aborted

  /** What the earlier attempts came to: each failed, and none with an error that ends the matter. */
  ghost predicate AllRetryable<T, E>(task: nat -> Attempt<T, E>, retryable: E -> bool, errors: seq<E>) {
    forall k: nat | k < |errors| :: task(k + 1) == Failed(errors[k]) && retryable(errors[k])
  }

  /**
   * Tries until an attempt succeeds, fails for good, or the attempts are used up. `task(k)` is what attempt `k` comes
   * to. The signal is looked at before every attempt and during every wait, and found aborted the `abortsAt`-th time and
   * later, if ever.
   */
  method AttemptWithRetry<T, E>(attempts: int, task: nat -> Attempt<T, E>, retryable: E -> bool, abortsAt: Option<nat>)
    returns (r: Attempt<T, E>, made: nat, errors: seq<E>)
    requires forall k :: !task(k).Aborted?
    ensures made <= Max(1, attempts)
    ensures r.Aborted? ==> made == |errors| && AllRetryable(task, retryable, errors) && made < Max(1, attempts)
    ensures r.Aborted? ==> abortsAt.Some? && Max(0, 2 * made - 1) <= abortsAt.value <= 2 * made
    ensures !r.Aborted? && abortsAt.Some? ==> abortsAt.value > 2 * (made - 1)
    ensures r.Done? ==> r == task(made) && made == |errors| + 1 && AllRetryable(task, retryable, errors)
    ensures r.Failed? ==> && r == task(made) && 1 <= made == |errors| && errors[made - 1] == r.error
                          && AllRetryable(task, retryable, errors[..made - 1])
                          && (made == Max(1, attempts) || !retryable(r.error))
  {
    var limit := Max(1, attempts);
    errors := [];
    var looked := 0;
    for attempt := 1 to limit + 1
      invariant |errors| == attempt - 1 && AllRetryable(task, retryable, errors)
      invariant attempt <= limit && looked == 2 * (attempt - 1)
      invariant abortsAt.Some? && attempt > 1 ==> abortsAt.value > looked - 1
    {
      if abortsAt.Some? && abortsAt.value <= looked {
        return Aborted, attempt - 1, errors;
      }
      looked := looked + 1;
      var result := task(attempt);
      if result.Done? {
        return result, attempt, errors;
      }
      ghost var before := errors;
      errors := errors + [result.error];
      assert errors[..attempt - 1] == before;
      if attempt >= limit || !retryable(result.error) {
        return result, attempt, errors;
      }
      if abortsAt.Some? && abortsAt.value <= looked {
        return Aborted, attempt, errors;
      }
      looked := looked + 1;
    }
  }
}
