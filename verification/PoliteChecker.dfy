/** What a run of service probes must look like, whoever makes them. */
module Probing {
  import opened Common
  import opened TokenBuckets
  import opened CircuitBreakers

  const BREAKER_THRESHOLD: int := 25
  const BREAKER_RESET: real := 120000.0
  const BLOCKED_PAUSE: real := 60000.0
  const LONGEST_PAUSE: real := 300000.0

  datatype Verdict = Passed | Blocked | Failed | NoVerdict

  /** What a request came to: an error of the requester, or a verdict and the wait the service asked for. */
  datatype Reply = Threw | Answered(verdict: Verdict, retryAfter: Option<real>)

  ghost predicate Good(r: Reply) { r.Answered? && !r.verdict.Blocked? && !r.verdict.Failed? }

  /** How long all probing pauses after a reply. */
  ghost function Pause(r: Reply): real {
    if r.Threw? then 0.0
    else
      var wait := if r.retryAfter.Some? then r.retryAfter.value else if r.verdict.Blocked? then BLOCKED_PAUSE else 0.0;
      if wait <= 0.0 then 0.0 else if wait < LONGEST_PAUSE then wait else LONGEST_PAUSE
  }

  /**
   * One probe: the bucket's clock when its token was taken, its start, the spacing then in force, its reply, whether
   * the reply tripped the breaker, and when the breaker and the cooldown it caused end.
   */
  datatype Probe = Probe(tick: real, start: real, spacing: real, reply: Reply, tripped: bool, reopenAt: real, pauseUntil: real)

  /** Outcomes since the breaker last tripped. */
  ghost function SinceTrip(log: seq<Probe>): seq<bool> {
    if log == [] || log[|log| - 1].tripped then [] else SinceTrip(log[..|log| - 1]) + [Good(log[|log| - 1].reply)]
  }

  /** The wait a probe causes is at least what its reply asked for, counted from its start. */
  ghost predicate CausesWait(p: Probe) {
    p.pauseUntil >= p.start + Pause(p.reply) && (p.tripped ==> p.reopenAt >= p.start + BREAKER_RESET)
  }

  /** The breaker trips exactly on a bad reply that brings its counter to the threshold. */
  ghost predicate TripsRightly(before: seq<Probe>, p: Probe) {
    p.tripped <==> !Good(p.reply) && Counter(SinceTrip(before) + [false]) >= BREAKER_THRESHOLD
  }

  /** Where a probe may stand after the ones before it. */
  ghost predicate Fits(before: seq<Probe>, p: Probe, least: real, capacity: real, perSecond: real) {
    && CausesWait(p) && TripsRightly(before, p)
    && p.tick <= p.start
    && (before != [] ==> p.spacing >= least && p.start >= before[|before| - 1].start + p.spacing)
    && (forall i | 0 <= i < |before| ::
          before[i].pauseUntil <= p.start && before[i].reopenAt <= p.start && before[i].start <= p.tick)
    && 1.0 <= capacity
    && (forall i | 0 <= i < |before| :: (|before| - i + 1) as real <= capacity + Flow(perSecond, before[i].tick, p.tick))
  }

  ghost predicate Polite(log: seq<Probe>, least: real, capacity: real, perSecond: real) {
    log == []
    || (Polite(log[..|log| - 1], least, capacity, perSecond)
        && Fits(log[..|log| - 1], log[|log| - 1], least, capacity, perSecond))
  }

  // ------------------------------------------------------------------ what politeness means for whole runs

  lemma {:induction false} EachFits(log: seq<Probe>, least: real, capacity: real, perSecond: real, k: nat)
    requires Polite(log, least, capacity, perSecond) && k < |log|
    ensures Fits(log[..k], log[k], least, capacity, perSecond)
    decreases |log|
  {
    if k < |log| - 1 {
      EachFits(log[..|log| - 1], least, capacity, perSecond, k);
      assert log[..|log| - 1][..k] == log[..k];
    }
  }

  /** No probe starts inside a pause or an open interval that an earlier one caused. */
  lemma WaitsRespected(log: seq<Probe>, least: real, capacity: real, perSecond: real, i: nat, j: nat)
    requires Polite(log, least, capacity, perSecond) && i < j < |log|
    ensures log[j].start >= log[i].start + Pause(log[i].reply)
    ensures log[i].tripped ==> log[j].start >= log[i].start + BREAKER_RESET
  {
    EachFits(log, least, capacity, perSecond, i);
    EachFits(log, least, capacity, perSecond, j);
    assert log[..j][i] == log[i];
  }

  /** The breaker trips on a bad reply exactly when some stretch of replies up to it, since the last trip, is bad enough. */
  lemma TripsOnHistory(log: seq<Probe>, least: real, capacity: real, perSecond: real, k: nat)
    requires Polite(log, least, capacity, perSecond) && k < |log|
    ensures log[k].tripped <==> !Good(log[k].reply) && Reaches(SinceTrip(log[..k]) + [false], BREAKER_THRESHOLD)
  {
    EachFits(log, least, capacity, perSecond, k);
    CounterTestsHistory(SinceTrip(log[..k]) + [false], BREAKER_THRESHOLD);
  }

  /** The wait a reply asks for: its own if it is positive, or a minute after a block that comes without one. */
  ghost predicate AsksFor(r: Reply, wait: real) {
    && r.Answered? && wait > 0.0
    && (r.retryAfter == Some(wait) || (r.retryAfter.None? && r.verdict.Blocked? && wait == 60000.0))
  }

  /** Of a wait asked for, at most five minutes are honoured. */
  ghost function Honoured(wait: real): real { if wait < 300000.0 then wait else 300000.0 }

  /**
   * What a probe that started at `start` and was over by `now` makes of the cooldown: as far beyond its start as the
   * wait its reply asks for, and no further beyond its end; a reply that asks for none leaves it alone.
   */
  ghost predicate CooldownFollows(r: Reply, start: real, now: real, before: real, after: real) {
    && (forall wait | AsksFor(r, wait) ::
          start + (if wait < 300000.0 then wait else 300000.0) <= after <= now + (if wait < 300000.0 then wait else 300000.0))
    && ((forall wait :: !AsksFor(r, wait)) ==> after == before)
  }

  lemma PausedFollows(r: Reply, start: real, now: real, before: real, after: real)
    requires Pause(r) > 0.0 ==> start + Pause(r) <= after <= now + Pause(r)
    requires Pause(r) <= 0.0 ==> after == before
    ensures CooldownFollows(r, start, now, before, after)
  {
    hide Pause;
    AskedIsPaused(r);
    assert forall wait | AsksFor(r, wait) :: wait > 0.0 && Honoured(wait) > 0.0;
  }

  lemma AskedIsPaused(r: Reply)
    ensures forall wait | AsksFor(r, wait) :: Pause(r) == Honoured(wait)
    ensures Pause(r) > 0.0 ==> exists wait :: AsksFor(r, wait)
  {
    if Pause(r) > 0.0 {
      assert AsksFor(r, if r.retryAfter.Some? then r.retryAfter.value else 60000.0);
    }
  }

  /** After a reply that asks for a wait, no probe starts before it has passed, up to five minutes of it. */
  lemma AskedWaitsRespected(log: seq<Probe>, least: real, capacity: real, perSecond: real, i: nat, j: nat, wait: real)
    requires Polite(log, least, capacity, perSecond) && i < j < |log| && AsksFor(log[i].reply, wait)
    ensures log[j].start >= log[i].start + (if wait < 300000.0 then wait else 300000.0)
  {
    WaitsRespected(log, least, capacity, perSecond, i, j);
    AskedIsPaused(log[i].reply);
  }

  /** A reply that counts against the service: an error, a block or a failure. */
  ghost predicate CountsAgainst(r: Reply) { r.Threw? || r.verdict.Blocked? || r.verdict.Failed? }

  /** How bad a stretch of replies is: one for each that counts against the service, minus two for each other. */
  ghost function Harm(stretch: seq<Probe>): int {
    if stretch == [] then 0
    else Harm(stretch[..|stretch| - 1]) + if CountsAgainst(stretch[|stretch| - 1].reply) then 1 else -2
  }

  ghost predicate Untripped(stretch: seq<Probe>) { forall i | 0 <= i < |stretch| :: !stretch[i].tripped }

  /** Some stretch of replies that ends with probe `k`, with no trip before it in the stretch, is that bad. */
  ghost predicate BadStretch(log: seq<Probe>, k: nat, threshold: int)
    requires k < |log|
  {
    exists n :: 0 <= n <= k && Untripped(log[n..k]) && Harm(log[n..k]) + 1 >= threshold
  }

  lemma {:induction false} SinceTripIs(log: seq<Probe>, k: nat)
    requires k <= |log|
    ensures var os := SinceTrip(log[..k]);
            && |os| <= k
            && (forall i | k - |os| <= i < k :: !log[i].tripped && os[i - (k - |os|)] == Good(log[i].reply))
            && (|os| < k ==> log[k - |os| - 1].tripped)
    decreases k
  {
    if k > 0 {
      assert log[..k][..k - 1] == log[..k - 1];
      SinceTripIs(log, k - 1);
    }
  }

  lemma {:induction false} HarmIsBadness(stretch: seq<Probe>, os: seq<bool>)
    requires |os| == |stretch| && forall i | 0 <= i < |os| :: os[i] == Good(stretch[i].reply)
    ensures Badness(os) == Harm(stretch)
    decreases |os|
  {
    if os != [] {
      HarmIsBadness(stretch[..|os| - 1], os[..|os| - 1]);
    }
  }

  lemma BadStretchReaches(log: seq<Probe>, k: nat, threshold: int)
    requires k < |log| && 0 < threshold
    ensures BadStretch(log, k, threshold) <==> Reaches(SinceTrip(log[..k]) + [false], threshold)
  {
    hide Harm, Badness, SinceTrip;
    SinceTripIs(log, k);
    var os := SinceTrip(log[..k]);
    var s, all := k - |os|, os + [false];
    forall n | 0 <= n <= |os| ensures Badness(all[n..]) == Harm(log[s + n..k]) + 1 && Untripped(log[s + n..k]) {
      BadnessGrows(os, n, false);
      HarmIsBadness(log[s + n..k], os[n..]);
    }
    if Reaches(all, threshold) {
      var n :| 0 <= n <= |all| && Badness(all[n..]) >= threshold;
      NoHarm(all[|all|..]);
      assert Untripped(log[s + n..k]);
    }
    forall m | 0 <= m < s ensures !Untripped(log[m..k]) {
      assert log[m..k][s - 1 - m].tripped;
    }
    if BadStretch(log, k, threshold) {
      var m :| 0 <= m <= k && Untripped(log[m..k]) && Harm(log[m..k]) + 1 >= threshold;
      assert Badness(all[m - s..]) >= threshold;
    }
  }

  /** The breaker trips exactly on a reply that counts against the service and ends a stretch at least 25 bad. */
  lemma TripsOnBadStretch(log: seq<Probe>, least: real, capacity: real, perSecond: real, k: nat)
    requires Polite(log, least, capacity, perSecond) && k < |log|
    ensures log[k].tripped <==> CountsAgainst(log[k].reply) && BadStretch(log, k, 25)
    ensures log[k].tripped ==> forall j | k < j < |log| :: log[j].start >= log[k].start + 120000.0
  {
    hide Polite, Harm, Badness, BadStretch, Reaches;
    TripsOnHistory(log, least, capacity, perSecond, k);
    BadStretchReaches(log, k, 25);
    forall j | k < j < |log| ensures log[k].tripped ==> log[j].start >= log[k].start + 120000.0 {
      WaitsRespected(log, least, capacity, perSecond, k, j);
    }
  }

  lemma NoHarm(os: seq<bool>)
    requires os == []
    ensures Badness(os) == 0
  {
  }

  ghost function Times(n: nat, x: real): real { if n == 0 then 0.0 else Times(n - 1, x) + x }

  /** Probes keep at least the smallest spacing from each other. */
  lemma {:induction false} SpacingKept(log: seq<Probe>, least: real, capacity: real, perSecond: real, i: nat, j: nat)
    requires Polite(log, least, capacity, perSecond) && i <= j < |log|
    ensures log[j].start >= log[i].start + Times(j - i, least)
    ensures i < j ==> log[j].start >= log[j - 1].start + log[j].spacing
    decreases j
  {
    if i < j {
      SpacingKept(log, least, capacity, perSecond, i, j - 1);
      EachFits(log, least, capacity, perSecond, j);
      assert log[..j][j - 1] == log[j - 1];
    }
  }

  /** The bucket's bound on a stretch of probes, by the clock readings at which their tokens were taken. */
  lemma StretchOfProbes(log: seq<Probe>, least: real, capacity: real, perSecond: real, i: nat, j: nat)
    requires Polite(log, least, capacity, perSecond) && i <= j < |log|
    ensures (j - i + 1) as real <= capacity + Flow(perSecond, log[i].tick, log[j].tick)
  {
    EachFits(log, least, capacity, perSecond, j);
    if i < j {
      assert log[..j][i] == log[i];
    } else {
      assert Flow(perSecond, log[i].tick, log[i].tick) == 0.0;
    }
  }

  /** Probes after any given one: at most a full bucket and what flows in between the two starts. */
  lemma ProbesAfter(log: seq<Probe>, least: real, capacity: real, perSecond: real, i: nat, j: nat)
    requires Polite(log, least, capacity, perSecond) && i < j < |log| && perSecond >= 0.0
    ensures (j - i) as real <= capacity + Flow(perSecond, log[i].start, log[j].start)
  {
    StretchOfProbes(log, least, capacity, perSecond, i + 1, j);
    EachFits(log, least, capacity, perSecond, i + 1);
    EachFits(log, least, capacity, perSecond, j);
    assert log[..i + 1][i] == log[i];
    if i + 1 < j {
      assert log[..j][i + 1] == log[i + 1];
    }
    FlowIsForward(perSecond, log[i].start, log[i + 1].tick);
    FlowIsForward(perSecond, log[j].tick, log[j].start);
    FlowAdds(perSecond, log[i].start, log[i + 1].tick, log[j].tick);
    FlowAdds(perSecond, log[i].start, log[j].tick, log[j].start);
  }

  // ------------------------------------------------------------------ the log against the checker's state

  /** Every wait caused so far is over or still in force. */
  ghost predicate Covered(log: seq<Probe>, clock: real, cooldownUntil: real, openUntil: real) {
    log == []
    || (var p := log[|log| - 1];
        && p.start <= clock
        && (p.pauseUntil <= clock || p.pauseUntil <= cooldownUntil)
        && (p.reopenAt <= clock || p.reopenAt <= openUntil)
        && Covered(log[..|log| - 1], clock, cooldownUntil, openUntil))
  }

  /** `n` tokens, the log's among them, are paid for by the bucket's capacity and what flowed into it. */
  ghost predicate Paid(log: seq<Probe>, b: Bucket, n: nat) {
    log == []
    || (var p := log[|log| - 1];
        && p.tick <= b.last
        && b.tokens + (n - |log| + 1) as real <= b.capacity + Flow(b.perSecond, p.tick, b.last)
        && Paid(log[..|log| - 1], b, n))
  }

  lemma {:induction false} CoveredEach(log: seq<Probe>, clock: real, cooldownUntil: real, openUntil: real)
    requires Covered(log, clock, cooldownUntil, openUntil) && cooldownUntil <= clock && openUntil <= clock
    ensures forall i | 0 <= i < |log| :: log[i].start <= clock && log[i].pauseUntil <= clock && log[i].reopenAt <= clock
  {
    if log != [] {
      CoveredEach(log[..|log| - 1], clock, cooldownUntil, openUntil);
      assert forall i | 0 <= i < |log| - 1 :: log[i] == log[..|log| - 1][i];
    }
  }

  /** Time passes; waits that are over may be replaced by others. */
  lemma {:induction false} CoveredLater(log: seq<Probe>, clock: real, cooldownUntil: real, openUntil: real,
                                        later: real, cooldown: real, open: real)
    requires Covered(log, clock, cooldownUntil, openUntil) && clock <= later
    requires cooldown == cooldownUntil || cooldownUntil <= clock
    requires open == openUntil || openUntil <= clock
    ensures Covered(log, later, cooldown, open)
  {
    if log != [] {
      CoveredLater(log[..|log| - 1], clock, cooldownUntil, openUntil, later, cooldown, open);
    }
  }

  lemma CoveredMore(log: seq<Probe>, p: Probe, clock: real, cooldownUntil: real, openUntil: real)
    requires Covered(log, clock, cooldownUntil, openUntil) && p.start <= clock
    requires p.pauseUntil <= clock || p.pauseUntil <= cooldownUntil
    requires p.reopenAt <= clock || p.reopenAt <= openUntil
    ensures Covered(log + [p], clock, cooldownUntil, openUntil)
  {
    assert (log + [p])[..|log|] == log;
  }

  /** A call to the bucket leaves everything paid, its own token included. */
  lemma {:induction false} CallIsPaid(log: seq<Probe>, b: Bucket, n: nat, now: real)
    requires Sound(b) && Paid(log, b, n) && |log| <= n
    ensures var a := After(b, now, 1.0);
            && Sound(a) && a.capacity == b.capacity && a.perSecond == b.perSecond
            && a.last == (if now <= b.last then b.last else now)
            && (Grants(b, now, 1.0) ==> a.tokens + 1.0 <= b.capacity)
    ensures Paid(log, After(b, now, 1.0), n + if Grants(b, now, 1.0) then 1 else 0)
  {
    OneCall(b, now, 1.0);
    if log != [] {
      FlowAdds(b.perSecond, log[|log| - 1].tick, b.last, After(b, now, 1.0).last);
      CallIsPaid(log[..|log| - 1], b, n, now);
    }
  }

  /** A token that went to no probe still is paid for. */
  lemma {:induction false} PaidForLess(log: seq<Probe>, b: Bucket, n: nat)
    requires Paid(log, b, n + 1) && |log| <= n
    ensures Paid(log, b, n)
  {
    if log != [] {
      PaidForLess(log[..|log| - 1], b, n);
    }
  }

  lemma {:induction false} PaidEach(log: seq<Probe>, b: Bucket, n: nat)
    requires Paid(log, b, n) && |log| <= n && b.tokens >= 0.0
    ensures forall i | 0 <= i < |log| :: (n - i) as real <= b.capacity + Flow(b.perSecond, log[i].tick, b.last)
  {
    if log != [] {
      var shorter := log[..|log| - 1];
      PaidEach(shorter, b, n);
      forall i | 0 <= i < |log| ensures (n - i) as real <= b.capacity + Flow(b.perSecond, log[i].tick, b.last) {
        if i < |log| - 1 {
          assert log[i] == shorter[i];
        }
      }
    }
  }

  lemma PaidMore(log: seq<Probe>, p: Probe, b: Bucket)
    requires Paid(log, b, |log| + 1) && p.tick == b.last && b.tokens + 1.0 <= b.capacity
    ensures Paid(log + [p], b, |log| + 1)
  {
    assert (log + [p])[..|log|] == log;
    FlowNone(b.perSecond, b.last);
  }

  lemma TripGrows(log: seq<Probe>, p: Probe)
    ensures SinceTrip(log + [p]) == if p.tripped then [] else SinceTrip(log) + [Good(p.reply)]
  {
    assert (log + [p])[..|log|] == log;
  }

  /** A probe that waited out what was in force when its token was taken, and kept its distance, fits. */
  lemma ProbeFits(log: seq<Probe>, p: Probe, least: real, b: Bucket, cooldownUntil: real, openUntil: real, since: real)
    requires Covered(log, since, cooldownUntil, openUntil) && cooldownUntil <= since && openUntil <= since
    requires since <= p.tick <= p.start
    requires log != [] ==> p.spacing >= least && p.start >= log[|log| - 1].start + p.spacing
    requires CausesWait(p) && TripsRightly(log, p)
    requires Paid(log, b, |log| + 1) && p.tick == b.last && 0.0 <= b.tokens && b.tokens + 1.0 <= b.capacity
    ensures Fits(log, p, least, b.capacity, b.perSecond)
  {
    CoveredEach(log, since, cooldownUntil, openUntil);
    PaidEach(log, b, |log| + 1);
  }

  /** A probe that fits, once it is settled, leaves everything in order again. */
  lemma ProbeRecorded(log: seq<Probe>, p: Probe, least: real, b: Bucket, cooldownUntil: real, openUntil: real, since: real,
                      clock: real, cooldown: real, open: real)
    requires Polite(log, least, b.capacity, b.perSecond) && Fits(log, p, least, b.capacity, b.perSecond)
    requires Paid(log, b, |log| + 1) && p.tick == b.last && b.tokens + 1.0 <= b.capacity
    requires Covered(log, since, cooldownUntil, openUntil) && cooldownUntil <= since && openUntil <= since <= clock
    requires p.start <= clock && (p.pauseUntil <= clock || p.pauseUntil <= cooldown) && (p.reopenAt <= clock || p.reopenAt <= open)
    ensures Polite(log + [p], least, b.capacity, b.perSecond)
    ensures Paid(log + [p], b, |log| + 1)
    ensures Covered(log + [p], clock, cooldown, open)
    ensures SinceTrip(log + [p]) == if p.tripped then [] else SinceTrip(log) + [Good(p.reply)]
  {
    PoliteMore(log, p, least, b.capacity, b.perSecond);
    PaidMore(log, p, b);
    CoveredLater(log, since, cooldownUntil, openUntil, clock, cooldown, open);
    CoveredMore(log, p, clock, cooldown, open);
    TripGrows(log, p);
  }

  lemma PoliteMore(log: seq<Probe>, p: Probe, least: real, capacity: real, perSecond: real)
    requires Polite(log, least, capacity, perSecond) && Fits(log, p, least, capacity, perSecond)
    ensures Polite(log + [p], least, capacity, perSecond)
  {
    assert (log + [p])[..|log|] == log;
  }

  // ------------------------------------------------------------------ the log and the whole state

  /** What of a checker's state its log has to do with. */
  datatype Snapshot = Snapshot(bucket: Bucket, clock: real, cooldownUntil: real, openUntil: real, recent: seq<bool>, lastRequestAt: real)

  /** The log is polite and in step with the state; `n` tokens are accounted for. */
  ghost predicate InStep(log: seq<Probe>, s: Snapshot, n: nat, least: real) {
    && Sound(s.bucket) && s.bucket.last <= s.clock && |log| <= n
    && s.recent == SinceTrip(log)
    && (log != [] ==> s.lastRequestAt == log[|log| - 1].start)
    && Covered(log, s.clock, s.cooldownUntil, s.openUntil)
    && Paid(log, s.bucket, n)
    && Polite(log, least, s.bucket.capacity, s.bucket.perSecond)
  }

  lemma TimePasses(log: seq<Probe>, s: Snapshot, n: nat, least: real, clock: real)
    requires InStep(log, s, n, least) && s.clock <= clock
    ensures InStep(log, s.(clock := clock), n, least)
  {
    CoveredLater(log, s.clock, s.cooldownUntil, s.openUntil, clock, s.cooldownUntil, s.openUntil);
  }

  /** The bucket is asked for a token. */
  lemma TokenAsked(log: seq<Probe>, s: Snapshot, least: real, now: real)
    requires InStep(log, s, |log|, least) && s.clock <= now && 1.0 <= s.bucket.capacity
    ensures var a := After(s.bucket, now, 1.0);
            && InStep(log, s.(bucket := a, clock := now), |log| + if Grants(s.bucket, now, 1.0) then 1 else 0, least)
            && a.last == now && a.capacity == s.bucket.capacity && a.perSecond == s.bucket.perSecond
            && (Grants(s.bucket, now, 1.0) ==> a.tokens + 1.0 <= a.capacity)
            && (!Grants(s.bucket, now, 1.0) ==> s.bucket.tokens < 1.0)
  {
    TimePasses(log, s, |log|, least, now);
    CallIsPaid(log, s.bucket, |log|, now);
    if !Grants(s.bucket, now, 1.0) {
      RefusedWhenShort(s.bucket, now, 1.0);
    }
  }

  lemma TokenSpare(log: seq<Probe>, s: Snapshot, least: real)
    requires InStep(log, s, |log| + 1, least)
    ensures InStep(log, s, |log|, least)
  {
    PaidForLess(log, s.bucket, |log|);
  }

  /** The log entry of a probe, from what the breaker and the cooldown are once it is settled. */
  ghost function ProbeOf(tick: real, start: real, spacing: real, reply: Reply, tripped: bool, openUntil: real, cooldownUntil: real): Probe {
    Probe(tick, start, spacing, reply, tripped, if tripped then openUntil else start, if Pause(reply) > 0.0 then cooldownUntil else start)
  }

  lemma ProbeAsSettled(tick: real, start: real, spacing: real, reply: Reply, tripped: bool, openUntil: real, cooldownUntil: real)
    requires tripped ==> openUntil >= start + BREAKER_RESET
    requires Pause(reply) > 0.0 ==> cooldownUntil >= start + Pause(reply)
    ensures var p := ProbeOf(tick, start, spacing, reply, tripped, openUntil, cooldownUntil);
            && CausesWait(p)
            && p.tick == tick && p.start == start && p.spacing == spacing && p.reply == reply && p.tripped == tripped
            && (p.pauseUntil <= start || p.pauseUntil <= cooldownUntil) && (p.reopenAt <= start || p.reopenAt <= openUntil)
  {
  }

  /** A probe whose token was taken at `s`, when nothing was in force, and what its reply made of the state. */
  lemma ProbeSettled(log: seq<Probe>, s: Snapshot, least: real, p: Probe, clock: real, cooldown: real, open: real, recent: seq<bool>)
    requires InStep(log, s, |log| + 1, least) && s.bucket.tokens + 1.0 <= s.bucket.capacity
    requires s.clock == s.bucket.last && s.cooldownUntil <= s.clock && s.openUntil <= s.clock
    requires p.tick == s.clock <= p.start <= clock
    requires p.spacing >= least && p.start >= s.lastRequestAt + p.spacing
    requires CausesWait(p)
    requires p.tripped <==> !Good(p.reply) && Counter(s.recent + [false]) >= BREAKER_THRESHOLD
    requires recent == if p.tripped then [] else s.recent + [Good(p.reply)]
    requires (p.pauseUntil <= clock || p.pauseUntil <= cooldown) && (p.reopenAt <= clock || p.reopenAt <= open)
    ensures InStep(log + [p], Snapshot(s.bucket, clock, cooldown, open, recent, p.start), |log| + 1, least)
  {
    hide Polite, Paid, Covered, SinceTrip, Counter, CausesWait, Flow, Fits;
    ProbeFits(log, p, least, s.bucket, s.cooldownUntil, s.openUntil, s.clock);
    ProbeRecorded(log, p, least, s.bucket, s.cooldownUntil, s.openUntil, s.clock, clock, cooldown, open);
  }

  lemma NothingInStep(b: Bucket, clock: real, lastRequestAt: real, least: real)
    requires Sound(b) && b.last <= clock
    ensures InStep([], Snapshot(b, clock, 0.0, 0.0, [], lastRequestAt), 0, least)
  {
  }
}

/** The service checker: every gate between a caller and a probe. */
module PoliteChecker {
  import opened Common
  import opened TokenBuckets
  import opened CircuitBreakers
  import opened Probing

  datatype Config = Config(
    enabled: bool,
    probeUrlAllowed: bool,
    respectRobots: bool,
    robotsTtl: real,
    minSpacing: real,
    perMinute: real,
    maxChecks: int)
  {
    function PerMinute(): real { if perMinute < 1.0 then 1.0 else perMinute }
    function Capacity(): real { if PerMinute() < 10.0 then PerMinute() else 10.0 }
    function PerSecond(): real { PerMinute() / 60.0 }
  }

  /** What is remembered of robots.txt; the crawl delay is in milliseconds. */
  datatype Policy = Policy(fetchedAt: real, allowed: bool, crawlDelay: Option<real>)

  /** The crawl delay of a policy that allows is honoured. */
  ghost predicate Honours(robots: Option<Policy>, spacing: real) {
    robots.Some? && robots.value.allowed && robots.value.crawlDelay.Some? ==> spacing >= robots.value.crawlDelay.value
  }

  function RealMax(a: real, b: real): real { if a < b then b else a }

  /** What a direct fetch of robots.txt came to: a rejection, or a policy with its crawl delay in seconds. */
  datatype DirectFetch = Rejected | Answer(allowed: bool, crawlDelay: Option<real>)

  ghost function Delay(seconds: Option<real>): Option<real> { if seconds.Some? then Some(seconds.value * 1000.0) else None }

  /** No policy is remembered, or it is too old. */
  ghost predicate Stale(config: Config, robots: Option<Policy>, t: real) {
    robots.None? || t - robots.value.fetchedAt >= config.robotsTtl
  }

  /** The clock readings of one check, gate by gate. */
  datatype Readings = Readings(cooldown: real, breaker: real, bucket: real, robots: real)

  /** What the gates of a check look at. */
  datatype Gates = Gates(config: Config, cooldownUntil: real, openUntil: real, checks: nat, bucket: Bucket, robots: Option<Policy>)
  {
    ghost predicate Wanted() { config.enabled && config.probeUrlAllowed }

    ghost predicate Rested(at: Readings) { Wanted() && cooldownUntil <= at.cooldown }

    ghost predicate Closed(at: Readings) { Rested(at) && openUntil <= at.breaker }

    /** Everything before the bucket lets the check through, so the bucket is asked for a token. */
    ghost predicate BucketAsked(at: Readings) { Closed(at) && checks < config.maxChecks }

    ghost predicate TokenTaken(at: Readings) { BucketAsked(at) && Grants(bucket, at.bucket, 1.0) }

    /** A token was taken, and robots.txt has to be fetched. */
    ghost predicate FetchDue(at: Readings) { TokenTaken(at) && config.respectRobots && Stale(config, robots, at.robots) }

    /** The policy the check goes by allows it. */
    ghost predicate Allowed(at: Readings, direct: DirectFetch) {
      if FetchDue(at) then direct.Answer? && direct.allowed
      else Stale(config, robots, at.robots) || robots.value.allowed
    }
  }

  datatype Reason = Disabled | BadProbeUrl | Cooldown | CircuitOpen | CycleBudget | RateBudget | RobotsDisallow

  datatype Result = Skipped(reason: Reason) | FetchRejected | Probed(reply: Reply)

  class CrunchyrollChecker {
    const config: Config
    const bucket: TokenBucket
    const breaker: ServiceCircuitBreaker
    /** The environment's clock. */
    var clock: real
    var robots: Option<Policy>
    var lastRequestAt: real
    var spacing: real
    var cooldownUntil: real
    var checksThisCycle: nat
    var totalChecks: nat
    ghost var log: seq<Probe>
    /** How many probes there had been when the cycle began. */
    ghost var cycleStart: nat

    ghost predicate Valid()
      reads this, bucket, breaker
    {
      && bucket.capacity == config.Capacity() && bucket.refillPerSecond == config.PerSecond()
      && breaker.Valid() && breaker.failureThreshold == BREAKER_THRESHOLD && breaker.resetMs == BREAKER_RESET
      && spacing >= config.minSpacing && Honours(robots, spacing)
      && totalChecks == |log| && cycleStart + checksThisCycle == |log|
      && checksThisCycle <= Max(0, config.maxChecks)
      && InStep(log, State(), |log|, config.minSpacing)
    }

    ghost function State(): Snapshot
      reads this, bucket, breaker
    {
      Snapshot(bucket.State(), clock, cooldownUntil, breaker.openUntil, breaker.recent, lastRequestAt)
    }

    /** Every run of a checker is polite. */
    lemma RunsArePolite()
      requires Valid()
      ensures Polite(log, config.minSpacing, config.Capacity(), config.PerSecond())
      ensures |log| - cycleStart <= Max(0, config.maxChecks)
      ensures 0.0 <= bucket.tokens <= config.Capacity()
    {
    }

    /** In numbers: after any probe, at most ten others, or the rate if that is lower, and what the rate allows by then. */
    lemma ProbesPerMinute(i: nat, j: nat)
      requires Valid() && i < j < |log|
      ensures var rate := if config.perMinute < 1.0 then 1.0 else config.perMinute;
              (j - i) as real <= (if rate < 10.0 then rate else 10.0) + rate * (log[j].start - log[i].start) / 60000.0
    {
      hide InStep, Polite, Flow, CrunchyrollChecker.Valid, Config.Capacity, Config.PerSecond;
      RunsArePolite();
      RateInNumbers(config);
      ProbesAfter(log, config.minSpacing, config.Capacity(), config.PerSecond(), i, j);
      FlowByMinute(config.PerMinute(), log[i].start, log[j].start);
    }

    /** A reply that asks for a wait is heeded, in every run. */
    lemma WaitsHeeded(i: nat, j: nat, wait: real)
      requires Valid() && i < j < |log| && AsksFor(log[i].reply, wait)
      ensures log[j].start >= log[i].start + (if wait < 300000.0 then wait else 300000.0)
    {
      hide InStep, Polite, CrunchyrollChecker.Valid;
      RunsArePolite();
      AskedWaitsRespected(log, config.minSpacing, config.Capacity(), config.PerSecond(), i, j, wait);
    }

    constructor (config: Config, clock: real)
      ensures Valid() && fresh(bucket) && fresh(breaker)
      ensures this.config == config && log == [] && cycleStart == 0 && this.clock == clock
      ensures Standing() == Gates(config, 0.0, 0.0, 0, Bucket(config.Capacity(), config.PerSecond(), config.Capacity(), clock), None)
    {
      this.config := config;
      bucket := new TokenBucket(config.Capacity(), config.PerSecond(), clock);
      breaker := new ServiceCircuitBreaker(BREAKER_THRESHOLD, BREAKER_RESET);
      this.clock, robots, lastRequestAt, spacing, cooldownUntil := clock, None, 0.0, config.minSpacing, 0.0;
      checksThisCycle, totalChecks, log, cycleStart := 0, 0, [], 0;
      new;
      NothingInStep(bucket.State(), clock, 0.0, config.minSpacing);
    }

    // ---------------------------------------------------------------- the environment

    method Now() returns (t: real)
      modifies `clock
      ensures old(clock) <= clock == t
    {
      Sleep(0.0);
      t := clock;
    }

    method Sleep(ms: real)
      modifies `clock
      ensures clock >= old(clock) && clock >= old(clock) + ms
    {
      var passed: real := *;
      clock := clock + if passed >= 0.0 && passed >= ms then passed else if ms >= 0.0 then ms else 0.0;
    }

    method Request() returns (r: Reply)
      modifies `clock
      ensures old(clock) <= clock
    {
      var any: Reply := *;
      Sleep(0.0);
      r := any;
    }

    // ---------------------------------------------------------------- the code

    /** Starts a cycle's budget afresh. */
    method BeginCycle()
      requires Valid()
      modifies this
      ensures Valid() && checksThisCycle == 0 && cycleStart == |log|
      ensures log == old(log) && clock == old(clock) && cooldownUntil == old(cooldownUntil)
      ensures lastRequestAt == old(lastRequestAt) && spacing == old(spacing) && robots == old(robots)
    {
      checksThisCycle, cycleStart := 0, |log|;
    }

    /** The robots policy, from the cache or fetched; no answer when the fetch itself is rejected. */
    method EnsureRobots(direct: DirectFetch) returns (policy: Option<Policy>, ghost at: real)
      requires spacing >= config.minSpacing && Honours(robots, spacing)
      modifies `clock, `robots, `spacing
      ensures old(clock) <= at <= clock && spacing >= config.minSpacing && Honours(robots, spacing)
      ensures policy.None? <==> config.respectRobots && Stale(config, old(robots), at) && direct.Rejected?
      ensures policy.Some? ==> robots == policy
      ensures policy.None? || !Stale(config, old(robots), at) ==> robots == old(robots)
      ensures policy.Some? && Stale(config, old(robots), at) ==>
                if config.respectRobots then policy.value.allowed == direct.allowed && policy.value.crawlDelay == Delay(direct.crawlDelay)
                else policy.value.allowed && policy.value.crawlDelay.None?
      ensures policy.Some? && config.robotsTtl > 0.0 ==> old(clock) - policy.value.fetchedAt < config.robotsTtl
      ensures spacing == if config.respectRobots && Stale(config, old(robots), at) && direct.Answer? && direct.allowed
                         then RealMax(config.minSpacing, Delay(direct.crawlDelay).GetOr(0.0)) else old(spacing)
    {
      at := clock;
      if robots.Some? {
        var t := Now();
        at := t;
        if t - robots.value.fetchedAt < config.robotsTtl {
          policy := robots;
          return;
        }
      }
      if !config.respectRobots {
        var t := Now();
        robots := Some(Policy(t, true, None));
        policy := robots;
        return;
      }
      Sleep(0.0);
      if direct.Rejected? {
        policy := None;
        return;
      }
      if direct.allowed {
        spacing := RealMax(config.minSpacing, if direct.crawlDelay.Some? then direct.crawlDelay.value * 1000.0 else 0.0);
      }
      var t := Now();
      robots := Some(Policy(t, direct.allowed, if direct.crawlDelay.Some? then Some(direct.crawlDelay.value * 1000.0) else None));
      policy := robots;
    }

    ghost function Standing(): Gates
      reads this, bucket, breaker
    {
      Gates(config, cooldownUntil, breaker.openUntil, checksThisCycle, bucket.State(), robots)
    }

    /**
     * Runs one probe, unless one of the gates holds it back. Which one does is decided by the state before the call,
     * the clock readings and what a fetch of robots.txt would come to. A rejected fetch passes through, and the token
     * taken before it is spent.
     */
    method Check(direct: DirectFetch) returns (result: Result, ghost at: Readings)
      requires Valid()
      modifies this, bucket, breaker
      ensures Valid()
      ensures cycleStart == old(cycleStart) && old(clock) <= at.cooldown <= at.breaker <= at.bucket <= at.robots <= clock
      ensures result.Probed? ==> |log| == |old(log)| + 1 && old(log) == log[..|old(log)|] && log[|old(log)|].reply == result.reply
      ensures !result.Probed? ==> log == old(log) && cooldownUntil == old(cooldownUntil)
      ensures result == Skipped(Disabled) <==> !config.enabled
      ensures result == Skipped(BadProbeUrl) <==> config.enabled && !config.probeUrlAllowed
      ensures result == Skipped(Cooldown) <==> old(Standing()).Wanted() && at.cooldown < old(cooldownUntil)
      ensures result == Skipped(CircuitOpen) <==> old(Standing()).Rested(at) && at.breaker < old(breaker.openUntil)
      ensures result == Skipped(CycleBudget) <==> old(Standing()).Closed(at) && old(checksThisCycle) >= config.maxChecks
      ensures result == Skipped(RateBudget) <==> old(Standing()).BucketAsked(at) && !Grants(old(bucket.State()), at.bucket, 1.0)
      ensures result == Skipped(RateBudget) ==> old(bucket.tokens) < 1.0
      ensures result == FetchRejected <==> old(Standing()).FetchDue(at) && direct.Rejected?
      ensures result == Skipped(RobotsDisallow) <==>
                old(Standing()).TokenTaken(at) && !old(Standing()).Allowed(at, direct) && !(old(Standing()).FetchDue(at) && direct.Rejected?)
      ensures result.Probed? <==> old(Standing()).TokenTaken(at) && old(Standing()).Allowed(at, direct)
      ensures bucket.State() == if old(Standing()).BucketAsked(at) then After(old(bucket.State()), at.bucket, 1.0) else old(bucket.State())
      ensures result == Skipped(RobotsDisallow) ==> robots.Some? && !robots.value.allowed
      ensures result.Probed? ==> robots.Some? && robots.value.allowed && log[|old(log)|].spacing == spacing
      ensures result.Probed? ==> cooldownUntil == old(cooldownUntil) || cooldownUntil <= clock + Pause(result.reply)
      ensures result.Probed? ==> CooldownFollows(result.reply, log[|old(log)|].start, clock, old(cooldownUntil), cooldownUntil)
    {
      hide CooldownFollows, InStep, Grants, After, Config.PerSecond, Config.Capacity, Counter, Stale;
      ghost var before := State();
      at := Readings(clock, clock, clock, clock);
      if !config.enabled {
        result := Skipped(Disabled);
        return;
      }
      if !config.probeUrlAllowed {
        result := Skipped(BadProbeUrl);
        return;
      }
      var t := Now();
      at := Readings(t, t, t, t);
      TimePasses(log, before, |log|, config.minSpacing, clock);
      if t < cooldownUntil {
        result := Skipped(Cooldown);
        return;
      }
      t := Now();
      at := at.(breaker := t, bucket := t, robots := t);
      TimePasses(log, before, |log|, config.minSpacing, clock);
      if breaker.Open(t) {
        result := Skipped(CircuitOpen);
        return;
      }
      if checksThisCycle >= config.maxChecks {
        result := Skipped(CycleBudget);
        return;
      }
      ghost var taken, asked;
      result, taken, asked := AskAndProbe(direct);
      at := at.(bucket := taken, robots := asked);
    }

    /** The second half of a check: the token, the robots policy, the probe. */
    method AskAndProbe(direct: DirectFetch) returns (result: Result, ghost taken: real, ghost asked: real)
      requires Valid() && cooldownUntil <= clock && breaker.openUntil <= clock && checksThisCycle < config.maxChecks
      modifies this, bucket, breaker
      ensures Valid() && cycleStart == old(cycleStart) && old(clock) <= taken <= asked <= clock
      ensures bucket.State() == After(old(bucket.State()), taken, 1.0)
      ensures result == Skipped(RateBudget) <==> !Grants(old(bucket.State()), taken, 1.0)
      ensures result == Skipped(RateBudget) ==> old(bucket.tokens) < 1.0
      ensures result == FetchRejected <==>
                Grants(old(bucket.State()), taken, 1.0) && config.respectRobots && Stale(config, old(robots), asked) && direct.Rejected?
      ensures result == Skipped(RobotsDisallow) <==>
                Grants(old(bucket.State()), taken, 1.0)
                && if Stale(config, old(robots), asked) then config.respectRobots && direct.Answer? && !direct.allowed
                   else !old(robots).value.allowed
      ensures result.Probed? || result in {Skipped(RateBudget), Skipped(RobotsDisallow), FetchRejected}
      ensures result.Probed? ==> |log| == |old(log)| + 1 && old(log) == log[..|old(log)|] && log[|old(log)|].reply == result.reply
      ensures !result.Probed? ==> log == old(log) && cooldownUntil == old(cooldownUntil)
      ensures result == Skipped(RobotsDisallow) ==> robots.Some? && !robots.value.allowed
      ensures result.Probed? ==> robots.Some? && robots.value.allowed && log[|old(log)|].spacing == spacing
      ensures result.Probed? ==> cooldownUntil == old(cooldownUntil) || cooldownUntil <= clock + Pause(result.reply)
      ensures result.Probed? ==> CooldownFollows(result.reply, log[|old(log)|].start, clock, old(cooldownUntil), cooldownUntil)
    {
      hide CooldownFollows, InStep, Grants, After, Config.PerSecond, Config.Capacity, Counter, Stale, Honours, Pause;
      ghost var before := State();
      var now := Now();
      taken, asked := now, now;
      CapacityForOne(config);
      TokenAsked(log, before, config.minSpacing, now);
      var ok := bucket.TryTake(now, 1.0);
      if !ok {
        result := Skipped(RateBudget);
        return;
      }
      ghost var at := State();
      var policy: Option<Policy>;
      policy, asked := EnsureRobots(direct);
      if policy.None? || !policy.value.allowed {
        TimePasses(log, at, |log| + 1, config.minSpacing, clock);
        TokenSpare(log, State(), config.minSpacing);
        result := if policy.None? then FetchRejected else Skipped(RobotsDisallow);
        return;
      }
      result := MakeProbe(at);
    }

    /** What a reply does to the breaker and the cooldown. */
    method Settle(reply: Reply) returns (ghost tripped: bool)
      requires breaker.Valid()
      modifies `clock, `cooldownUntil, breaker
      ensures breaker.Valid() && old(clock) <= clock
      ensures tripped <==> !Good(reply) && Counter(old(breaker.recent) + [false]) >= breaker.failureThreshold
      ensures breaker.recent == if tripped then [] else old(breaker.recent) + [Good(reply)]
      ensures tripped ==> breaker.openUntil >= old(clock) + breaker.resetMs
      ensures Pause(reply) > 0.0 ==> old(clock) + Pause(reply) <= cooldownUntil <= clock + Pause(reply)
      ensures Pause(reply) <= 0.0 ==> cooldownUntil == old(cooldownUntil)
    {
      hide Reaches, Counter, Badness, ServiceCircuitBreaker.Valid;
      CounterTestsHistory(breaker.recent + [false], breaker.failureThreshold);
      var now := Now();
      if reply.Threw? {
        tripped := breaker.Record(false, now);
        return;
      }
      tripped := breaker.Record(!(reply.verdict.Blocked? || reply.verdict.Failed?), now);
      var retryAfter := if reply.retryAfter.Some? then reply.retryAfter
                        else if reply.verdict.Blocked? then Some(BLOCKED_PAUSE)
                        else None;
      if retryAfter.Some? && retryAfter.value > 0.0 {
        now := Now();
        cooldownUntil := now + if retryAfter.value < LONGEST_PAUSE then retryAfter.value else LONGEST_PAUSE;
      }
    }

    /** Waits until the spacing in force has passed since the last request, and notes the start of the next. */
    method KeepDistance()
      modifies `clock, `lastRequestAt
      ensures old(clock) <= lastRequestAt == clock && lastRequestAt >= old(lastRequestAt) + spacing
    {
      var t := Now();
      var sinceLast := t - lastRequestAt;
      if sinceLast < spacing {
        Sleep(spacing - sinceLast);
      }
      lastRequestAt := Now();
    }

    /** The last part of a check: the spacing, the request, and what its reply changes. */
    method MakeProbe(ghost at: Snapshot) returns (result: Result)
      requires bucket.capacity == config.Capacity() && bucket.refillPerSecond == config.PerSecond()
      requires breaker.Valid() && breaker.failureThreshold == BREAKER_THRESHOLD && breaker.resetMs == BREAKER_RESET
      requires spacing >= config.minSpacing && Honours(robots, spacing)
      requires totalChecks == |log| && cycleStart + checksThisCycle == |log| && checksThisCycle < config.maxChecks
      requires InStep(log, at, |log| + 1, config.minSpacing) && State() == at.(clock := clock)
      requires at.clock == bucket.lastRefill <= clock && bucket.tokens + 1.0 <= bucket.capacity
      requires cooldownUntil <= at.clock && breaker.openUntil <= at.clock
      modifies this, breaker
      ensures Valid() && cycleStart == old(cycleStart) && old(clock) <= clock
      ensures result.Probed? && |log| == |old(log)| + 1 && old(log) == log[..|old(log)|] && log[|old(log)|].reply == result.reply
      ensures robots == old(robots) && spacing == old(spacing) && log[|old(log)|].spacing == spacing
      ensures cooldownUntil == old(cooldownUntil) || cooldownUntil <= clock + Pause(result.reply)
      ensures CooldownFollows(result.reply, log[|old(log)|].start, clock, old(cooldownUntil), cooldownUntil)
    {
      hide CooldownFollows, InStep, Counter, Config.PerSecond, Pause, CausesWait, Good, Config.Capacity, Honours, ServiceCircuitBreaker.Valid, ProbeOf;
      KeepDistance();
      checksThisCycle := checksThisCycle + 1;
      totalChecks := totalChecks + 1;
      ghost var start := lastRequestAt;
      var reply := Request();
      ghost var tripped := Settle(reply);
      ghost var p := ProbeOf(bucket.lastRefill, start, spacing, reply, tripped, breaker.openUntil, cooldownUntil);
      ProbeAsSettled(bucket.lastRefill, start, spacing, reply, tripped, breaker.openUntil, cooldownUntil);
      ProbeSettled(log, at, config.minSpacing, p, clock, cooldownUntil, breaker.openUntil, breaker.recent);
      PausedFollows(reply, start, clock, old(cooldownUntil), cooldownUntil);
      log := log + [p];
      return Probed(reply);
    }
  }

  lemma FlowByMinute(rate: real, from: real, to: real)
    ensures Flow(rate / 60.0, from, to) == rate * (to - from) / 60000.0
  {
    Scaled(to - from, rate);
  }

  lemma Scaled(x: real, y: real)
    ensures x / 1000.0 * (y / 60.0) == y * x / 60000.0
  {
  }

  lemma RateInNumbers(config: Config)
    ensures config.PerMinute() == (if config.perMinute < 1.0 then 1.0 else config.perMinute)
    ensures config.Capacity() == (if config.PerMinute() < 10.0 then config.PerMinute() else 10.0)
    ensures config.PerSecond() == config.PerMinute() / 60.0 && config.PerSecond() >= 0.0
  {
  }

  lemma CapacityForOne(config: Config)
    ensures 1.0 <= config.Capacity()
  {
  }

  lemma FullBucketGrants(config: Config, clock: real, at: real)
    requires clock <= at
    ensures var full := Bucket(config.Capacity(), config.PerSecond(), config.Capacity(), clock);
            Grants(full, at, 1.0) && After(full, at, 1.0).tokens == config.Capacity() - 1.0
  {
    if clock < at {
      FlowIsForward(config.PerSecond(), clock, at);
    }
  }

  /** The first check of any enabled checker that respects robots.txt, when the fetch is rejected: so is the check. */
  method RejectionPassesThrough(config: Config, clock: real) returns (checker: CrunchyrollChecker, result: Result)
    requires config.enabled && config.probeUrlAllowed && config.respectRobots && config.maxChecks > 0 && clock >= 0.0
    ensures fresh(checker) && checker.Valid() && checker.log == []
    ensures result == FetchRejected && checker.bucket.tokens == config.Capacity() - 1.0
  {
    hide InStep, Config.Capacity, Config.PerSecond, Grants, After;
    checker := new CrunchyrollChecker(config, clock);
    ghost var at;
    result, at := checker.Check(Rejected);
    FullBucketGrants(config, clock, at.bucket);
  }
}
