/** How outcomes become status transitions, and what the sweeps at the end of a cycle leave of the pool. */
module PoolRules {
  import opened Common
  import opened Scoring
  import opened PoolTable
  import opened Listing
  import opened Ranking
  import opened RepositoryRules

  datatype PoolConfig = PoolConfig(
    ttlMinutes: int,
    maxActive: nat,
    maxFailures: int,
    minScore: int,
    scoring: Scoring.Config)

  /** What a connectivity check reported for one proxy. */
  datatype Reply = Reply(id: nat, reachable: bool, latency: Option<int>)

  datatype ServiceResult = ServiceResult(id: nat, status: ServiceStatus, quality: Option<real>)

  datatype Tally = Tally(checked: nat, passed: nat, failed: nat, added: nat, retained: nat, quarantined: nat)

  /** The id index of a list of rows; a later row replaces an earlier one. */
  function ById(rows: seq<Snapshot>): map<nat, Row> {
    if rows == [] then map[]
    else ById(rows[..|rows| - 1])[rows[|rows| - 1].id := rows[|rows| - 1].row]
  }

  lemma {:induction false} IndexIsCurrent(table: Table, rows: seq<Snapshot>)
    requires Current(table, rows)
    ensures forall id | id in ById(rows) :: id in table && ById(rows)[id] == table[id]
    ensures ById(rows).Keys == ToSet(Ids(rows))
  {
    if rows != [] {
      var front := rows[..|rows| - 1];
      IndexIsCurrent(table, front);
      assert rows == front + [rows[|rows| - 1]];
      IdsConcat(front, [rows[|rows| - 1]]);
    } else {
      assert ToSet(Ids(rows)) == {};
    }
  }

  function AsReal(latency: Option<int>): Option<real> {
    if latency.None? then None else Some(latency.value as real)
  }

  function MinutesSince(t: Option<int>, now: int): Option<real> {
    if t.None? then None else Some((now - t.value) as real / 60000.0)
  }

  function ScoreAfter(row: Row, reply: Reply, now: int, trust: map<string, real>, c: PoolConfig): Score {
    ScoreProxy(
      ScoreInput(
        reply.reachable,
        if reply.reachable then AsReal(reply.latency) else None,
        row.checks + 1,
        row.passes + (if reply.reachable then 1 else 0),
        FailuresAfter(row, reply),
        if reply.reachable then Some(0.0) else MinutesSince(row.lastPassed, now),
        row.service,
        row.service.Blocked?,
        Some(if row.key in trust then trust[row.key] else 0.5),
        row.anonymity),
      c.scoring)
  }

  function FailuresAfter(row: Row, reply: Reply): int { if reply.reachable then 0 else row.failures + 1 }

  function StatusAfter(row: Row, reply: Reply, score: Score, c: PoolConfig): Status {
    var failures := FailuresAfter(row, reply);
    if reply.reachable then
      if score >= c.minScore then Active else Quarantined
    else if failures >= c.maxFailures then
      if row.lastPassed.None? && failures >= c.maxFailures * 3 then Dead else Quarantined
    else if row.status.Active? then Active
    else if row.status.Quarantined? then Quarantined
    else New
  }

  function PlanOne(row: Row, reply: Reply, now: int, trust: map<string, real>, c: PoolConfig): Outcome {
    var score := ScoreAfter(row, reply, now, trust, c);
    Outcome(reply.id, now, reply.reachable, if reply.reachable then reply.latency else None,
            StatusAfter(row, reply, score, c), FailuresAfter(row, reply), score, row.service)
  }

  /**
   * How an answer moves a row, in terms of the row and of what is recorded with the answer. A pass joins the pool
   * exactly with a sufficient score and is benched otherwise. A failure at the threshold ends a row that never passed
   * at three times the threshold and benches it otherwise; below the threshold members and benched rows stay.
   */
  ghost predicate StatusFollows(row: Row, reachable: bool, failures: int, score: Score, status: Status, c: PoolConfig) {
    if reachable then
      && (status.Active? <==> score >= c.minScore)
      && (status.Quarantined? <==> score < c.minScore)
    else if failures >= c.maxFailures then
      && (status.Dead? <==> row.lastPassed.None? && failures >= 3 * c.maxFailures)
      && (status.Dead? || status.Quarantined?)
    else
      && (status.Active? <==> row.status.Active?)
      && (status.Quarantined? <==> row.status.Quarantined?)
      && (status.Active? || status.Quarantined? || status.New?)
  }

  /** The score of a row by its own columns; a row whose last check failed scores nothing. */
  ghost function ScoreOfRow(r: Row, now: int, trust: Option<real>, c: PoolConfig): Score {
    var latency := if r.latency.Some? then Some(r.latency.value as real) else None;
    var sincePass := if r.lastPassed.Some? then Some((now - r.lastPassed.value) as real / 60000.0) else None;
    ScoreProxy(
      ScoreInput(!r.validation.Unreachable?, latency, r.checks, r.passes, r.failures, sincePass,
                 r.service, r.service.Blocked?, trust, r.anonymity),
      c.scoring)
  }

  ghost function TrustIn(trust: map<string, real>, key: string): Option<real> {
    if key in trust then Some(trust[key]) else Some(0.5)
  }

  /**
   * What an answer makes of a row, column by column: one check more, the counters moved on, the status that follows,
   * and the score that the row then has by its own columns.
   */
  ghost predicate ShowsAnswer(before: Row, after: Row, o: Reply, at: int, trust: map<string, real>, c: PoolConfig) {
    && after.validation == (if o.reachable then Reached else Unreachable)
    && after.latency == (if o.reachable then o.latency else None)
    && after.lastChecked == Some(at) && after.checks == before.checks + 1
    && after.lastPassed == (if o.reachable then Some(at) else before.lastPassed)
    && after.passes == before.passes + (if o.reachable then 1 else 0)
    && after.failures == (if o.reachable then 0 else before.failures + 1)
    && after.key == before.key && after.anonymity == before.anonymity && after.lastSeen == before.lastSeen
    && after.service == before.service && after.serviceChecked == before.serviceChecked
    && StatusFollows(before, o.reachable, after.failures, after.score, after.status, c)
    && after.score == ScoreOfRow(after, at, TrustIn(trust, after.key), c)
  }

  /** A planned write, applied to its row as it is or claimed, shows the answer it was planned from. */
  lemma PlannedShowsAnswer(row: Row, stored: Row, o: Reply, now: int, trust: map<string, real>, c: PoolConfig)
    requires stored == row.(status := stored.status, lastCycle := stored.lastCycle)
    ensures var u := PlanOne(row, o, now, trust, c);
            && u.id == o.id && u.at == now && u.reachable == o.reachable
            && ShowsAnswer(row, Updated(stored, u), o, now, trust, c)
  {
    hide ScoreProxy;
  }

  /** Every update names a row, comes from an answer about it, and would show that answer in the row. */
  ghost predicate UpdatesShowAnswers(byId: map<nat, Row>, replies: seq<Reply>, updates: seq<Outcome>, now: int, trust: map<string, real>, c: PoolConfig) {
    forall u <- updates ::
      u.id in byId && u.at == now
      && StatusFollows(byId[u.id], u.reachable, u.failures, u.score, u.status, c)
      && exists o :: o in replies && o.id == u.id && ShowsAnswer(byId[u.id], Updated(byId[u.id], u), o, now, trust, c)
  }

  lemma PlanShowsAnswers(byId: map<nat, Row>, replies: seq<Reply>, now: int, trust: map<string, real>, c: PoolConfig)
    ensures UpdatesShowAnswers(byId, replies, Plan(byId, replies, now, trust, c), now, trust, c)
  {
    hide Plan, ShowsAnswer;
    var updates := Plan(byId, replies, now, trust, c);
    PlanAnswers(byId, replies, now, trust, c);
    forall u <- updates ensures u.id in byId && u.at == now
      && StatusFollows(byId[u.id], u.reachable, u.failures, u.score, u.status, c)
      && exists o :: o in replies && o.id == u.id && ShowsAnswer(byId[u.id], Updated(byId[u.id], u), o, now, trust, c)
    {
      var k :| 0 <= k < |replies| && replies[k].id in byId && u == PlanOne(byId[replies[k].id], replies[k], now, trust, c);
      PlannedShowsAnswer(byId[u.id], byId[u.id], replies[k], now, trust, c);
      ShownStatus(byId[u.id], u, replies[k], now, trust, c);
    }
  }

  lemma ShownStatus(row: Row, u: Outcome, o: Reply, now: int, trust: map<string, real>, c: PoolConfig)
    requires ShowsAnswer(row, Updated(row, u), o, now, trust, c)
    ensures StatusFollows(row, u.reachable, u.failures, u.score, u.status, c)
  {
    hide ScoreOfRow;
  }

  /** One planned write per reply about a known row, in the order of the replies. */
  ghost function Plan(byId: map<nat, Row>, replies: seq<Reply>, now: int, trust: map<string, real>, c: PoolConfig): seq<Outcome> {
    if replies == [] then []
    else
      var last := replies[|replies| - 1];
      var before := Plan(byId, replies[..|replies| - 1], now, trust, c);
      if last.id in byId then before + [PlanOne(byId[last.id], last, now, trust, c)] else before
  }

  ghost predicate DistinctReplies(replies: seq<Reply>) {
    forall i, j :: 0 <= i < j < |replies| ==> replies[i].id != replies[j].id
  }

  /** Each outcome of a plan answers one of the replies. */
  lemma {:induction false} PlanAnswers(byId: map<nat, Row>, replies: seq<Reply>, now: int, trust: map<string, real>, c: PoolConfig)
    ensures forall o <- Plan(byId, replies, now, trust, c) ::
              exists k :: 0 <= k < |replies| && replies[k].id in byId && o == PlanOne(byId[replies[k].id], replies[k], now, trust, c)
    ensures forall k | 0 <= k < |replies| && replies[k].id in byId ::
              PlanOne(byId[replies[k].id], replies[k], now, trust, c) in Plan(byId, replies, now, trust, c)
  {
    if replies != [] {
      var front := replies[..|replies| - 1];
      PlanAnswers(byId, front, now, trust, c);
      forall o <- Plan(byId, replies, now, trust, c)
        ensures exists k :: 0 <= k < |replies| && replies[k].id in byId && o == PlanOne(byId[replies[k].id], replies[k], now, trust, c)
      {
        if o in Plan(byId, front, now, trust, c) {
          var k :| 0 <= k < |front| && front[k].id in byId && o == PlanOne(byId[front[k].id], front[k], now, trust, c);
          assert replies[k] == front[k];
        } else {
          assert o == PlanOne(byId[replies[|front|].id], replies[|front|], now, trust, c);
        }
      }
      forall k | 0 <= k < |replies| && replies[k].id in byId
        ensures PlanOne(byId[replies[k].id], replies[k], now, trust, c) in Plan(byId, replies, now, trust, c)
      {
        if k < |front| {
          assert replies[k] == front[k];
        }
      }
    }
  }

  /** A plan made from current rows is consistent with every table that has the same counters. */
  lemma {:induction false} PlanIsConsistent(table: Table, byId: map<nat, Row>, replies: seq<Reply>, now: int, trust: map<string, real>, c: PoolConfig)
    requires forall id | id in byId :: id in table && byId[id].failures == table[id].failures
    requires DistinctReplies(replies)
    ensures Consistent(table, Plan(byId, replies, now, trust, c))
  {
    if replies != [] {
      var front, last := replies[..|replies| - 1], replies[|replies| - 1];
      PlanIsConsistent(table, byId, front, now, trust, c);
      PlanAnswers(byId, front, now, trust, c);
      forall o <- Plan(byId, front, now, trust, c) ensures o.id != last.id {
        var k :| 0 <= k < |front| && front[k].id in byId && o == PlanOne(byId[front[k].id], front[k], now, trust, c);
        assert replies[k] == front[k];
      }
    }
  }

  // ------------------------------------------------------------------ what the tally counts

  ghost function CountStatus(os: seq<Outcome>, s: Status): nat {
    if os == [] then 0 else CountStatus(os[..|os| - 1], s) + (if os[|os| - 1].status == s then 1 else 0)
  }

  ghost function CountReachable(os: seq<Outcome>): nat {
    if os == [] then 0 else CountReachable(os[..|os| - 1]) + (if os[|os| - 1].reachable then 1 else 0)
  }

  /** Answers that make a row a pool member it was not. */
  ghost function CountAdded(byId: map<nat, Row>, os: seq<Outcome>): nat {
    if os == [] then 0
    else
      var last := os[|os| - 1];
      CountAdded(byId, os[..|os| - 1])
      + if last.status.Active? && last.reachable && last.id in byId && !byId[last.id].status.Active? then 1 else 0
  }

  /** Every planned update is counted once as passed or failed, and pool members and benched rows are all counted. */
  ghost predicate TallyOf(t: Tally, byId: map<nat, Row>, os: seq<Outcome>) {
    && t.checked == |os| == t.passed + t.failed
    && t.passed == CountReachable(os)
    && t.added == CountAdded(byId, os) && t.added + t.retained == CountStatus(os, Active)
    && t.quarantined == CountStatus(os, Quarantined)
  }

  lemma NothingPlannedYet(byId: map<nat, Row>, now: int, trust: map<string, real>, c: PoolConfig)
    ensures Plan(byId, [], now, trust, c) == [] && TallyOf(Tally(0, 0, 0, 0, 0, 0), byId, [])
  {
  }

  lemma PlanGrows(byId: map<nat, Row>, replies: seq<Reply>, r: Reply, now: int, trust: map<string, real>, c: PoolConfig)
    ensures Plan(byId, replies + [r], now, trust, c)
            == Plan(byId, replies, now, trust, c) + if r.id in byId then [PlanOne(byId[r.id], r, now, trust, c)] else []
    ensures r.id in byId ==> var o := PlanOne(byId[r.id], r, now, trust, c); o.id == r.id && o.reachable == r.reachable
  {
    hide ScoreAfter;
    assert (replies + [r])[..|replies|] == replies;
  }

  // ------------------------------------------------------------------ service verdicts

  function PlanServiceOne(row: Row, r: ServiceResult, now: int, c: PoolConfig): ServiceOutcome {
    var connectivity := ScoreProxy(
      ScoreInput(!row.validation.Unreachable?, AsReal(row.latency), row.checks, row.passes, row.failures,
                 MinutesSince(row.lastPassed, now), r.status, r.status.Blocked?, None, row.anonymity),
      c.scoring);
    ServiceOutcome(r.id, now, r.status, CombineScores(connectivity as real, r.quality, 0.55),
                   if r.status.Passed? then Active else row.status)
  }

  /** One planned write per verdict about a known row, in the order of the verdicts. */
  ghost function ServicePlan(byId: map<nat, Row>, results: seq<ServiceResult>, now: int, c: PoolConfig): seq<ServiceOutcome> {
    if results == [] then []
    else
      var last := results[|results| - 1];
      var before := ServicePlan(byId, results[..|results| - 1], now, c);
      if last.id in byId then before + [PlanServiceOne(byId[last.id], last, now, c)] else before
  }

  /** What a verdict plans: the score the row would have with it, blended with its quality, and a place in the pool for a pass. */
  ghost predicate ShowsVerdict(row: Row, r: ServiceResult, o: ServiceOutcome, now: int, c: PoolConfig) {
    && o.id == r.id && o.at == now && o.status == r.status
    && o.score == CombineScores(ScoreOfRow(row.(service := r.status), now, None, c) as real, r.quality, 0.55)
    && (if r.status.Passed? then o.next.Active? else o.next == row.status)
  }

  ghost predicate OutcomesShowVerdicts(byId: map<nat, Row>, results: seq<ServiceResult>, os: seq<ServiceOutcome>, now: int, c: PoolConfig) {
    forall o <- os :: o.id in byId && exists r :: r in results && r.id == o.id && ShowsVerdict(byId[o.id], r, o, now, c)
  }

  lemma {:induction false} ServicePlanShowsVerdicts(byId: map<nat, Row>, results: seq<ServiceResult>, now: int, c: PoolConfig)
    ensures OutcomesShowVerdicts(byId, results, ServicePlan(byId, results, now, c), now, c)
  {
    hide ScoreProxy, CombineScores;
    if results != [] {
      var last, front := results[|results| - 1], results[..|results| - 1];
      ServicePlanShowsVerdicts(byId, front, now, c);
      forall o <- ServicePlan(byId, results, now, c)
        ensures o.id in byId && exists r :: r in results && r.id == o.id && ShowsVerdict(byId[o.id], r, o, now, c)
      {
        if o in ServicePlan(byId, front, now, c) {
          var r :| r in front && r.id == o.id && ShowsVerdict(byId[o.id], r, o, now, c);
          assert r in results;
        } else {
          assert last in results && ShowsVerdict(byId[last.id], last, o, now, c);
        }
      }
    }
  }

  lemma {:induction false} ServicePlanNeverEvicts(table: Table, byId: map<nat, Row>, results: seq<ServiceResult>, now: int, c: PoolConfig)
    requires forall id | id in byId :: id in table && byId[id] == table[id]
    ensures NeverEvicts(table, ServicePlan(byId, results, now, c))
  {
    hide ScoreProxy, CombineScores;
    if results != [] {
      ServicePlanNeverEvicts(table, byId, results[..|results| - 1], now, c);
    }
  }

  /** Outcomes of the service stage that keep a row's status or make it active. */
  ghost predicate NeverEvicts(rows: Table, os: seq<ServiceOutcome>) {
    forall o <- os :: o.id in rows && (o.next.Active? || o.next == rows[o.id].status)
  }

  /** The service stage evicts no pool member, however its outcomes repeat. */
  lemma {:induction false} ServiceStageKeepsMembers(rows: Table, os: seq<ServiceOutcome>)
    requires NeverEvicts(rows, os)
    ensures ActiveIds(rows) <= ActiveIds(ApplyService(rows, os))
    decreases |os|
  {
    if os != [] {
      StatusesOnlyRise(rows, rows, os);
    }
  }

  lemma {:induction false} StatusesOnlyRise(start: Table, rows: Table, os: seq<ServiceOutcome>)
    requires NeverEvicts(start, os) && rows.Keys == start.Keys
    requires forall id | id in start :: rows[id].status == start[id].status || rows[id].status.Active?
    ensures ApplyService(rows, os).Keys == start.Keys
    ensures forall id | id in start :: start[id].status.Active? ==> ApplyService(rows, os)[id].status.Active?
    decreases |os|
  {
    if os != [] {
      var o := os[0];
      StatusesOnlyRise(start, rows[o.id := ServiceUpdated(rows[o.id], o)], os[1..]);
    }
  }

  // ------------------------------------------------------------------ the sweeps

  ghost predicate Healthy(r: Row, c: PoolConfig, now: int) {
    && r.status.Active?
    && r.failures < c.maxFailures
    && r.lastPassed.Some? && r.lastPassed.value >= Ago(now, c.ttlMinutes)
  }

  ghost function HealthyIds(rows: Table, c: PoolConfig, now: int): set<nat> {
    set id | id in rows && Healthy(rows[id], c, now)
  }

  /** The state every completed cycle ends in. */
  ghost predicate Settled(rows: Table, c: PoolConfig, now: int) {
    && Matching(rows, IsPending()) == {}
    && |ActiveIds(rows)| <= c.maxActive
    && forall id | id in ActiveIds(rows) :: Healthy(rows[id], c, now)
  }

  /**
   * The pool after the sweeps, in terms of the table before them: as many healthy members as fit, and no healthy
   * member left out while a lower ranking one stays, or an equal one with a lower id.
   */
  ghost predicate BestHealthyKept(before: Table, after: Table, c: PoolConfig, now: int) {
    var healthy := HealthyIds(before, c, now);
    && ActiveIds(after) <= healthy
    && |ActiveIds(after)| == Min(|healthy|, c.maxActive)
    && forall kept, out | kept in ActiveIds(after) && out in healthy - ActiveIds(after) ::
         StaysOver(before, kept, out)
  }

  lemma PartCount(whole: set<nat>, part: set<nat>)
    requires part <= whole
    ensures |whole - part| == |whole| - |part|
  {
    assert whole == (whole - part) + part;
  }

  lemma InPool(rows: Table, id: nat)
    ensures id in ActiveIds(rows) <==> id in rows && rows[id].status.Active?
  {
  }

  lemma SweepOutOfPool(rows: Table, who: Row -> bool, how: Row -> Row)
    requires forall r :: who(r) ==> r.status.Active? && !how(r).status.Active?
    ensures ActiveIds(UpdateWhere(rows, who, how)) == ActiveIds(rows) - Matching(rows, who)
    ensures Matching(rows, who) <= ActiveIds(rows)
    ensures |ActiveIds(UpdateWhere(rows, who, how))| == |ActiveIds(rows)| - |Matching(rows, who)|
    ensures forall id | id in ActiveIds(rows) - Matching(rows, who) :: UpdateWhere(rows, who, how)[id] == rows[id]
  {
    var rows' := UpdateWhere(rows, who, how);
    forall id ensures id in ActiveIds(rows') <==> id in ActiveIds(rows) && id !in Matching(rows, who) {
      InPool(rows', id);
      InPool(rows, id);
    }
    assert ActiveIds(rows') == ActiveIds(rows) - Matching(rows, who);
    PartCount(ActiveIds(rows), Matching(rows, who));
  }

  ghost function AfterExpiry(rows: Table, c: PoolConfig, now: int): Table {
    UpdateWhere(rows, IsStale(Ago(now, c.ttlMinutes)), Expire())
  }

  ghost function AfterQuarantine(rows: Table, c: PoolConfig): Table {
    UpdateWhere(rows, KeepsFailing(c.maxFailures), Quarantine())
  }

  ghost function AfterCapacity(rows: Table, c: PoolConfig): Table {
    UpdateIds(rows, Overflow(rows, c.maxActive), Quarantine())
  }

  ghost function AfterRelease(rows: Table, cycle: string): Table {
    UpdateWhere(UpdateWhere(rows, ClaimedBy(cycle), Release()), ClaimedElsewhere(cycle), Release())
  }

  /** The sweeps of a finalized cycle, in their order. */
  ghost function AfterSweeps(rows: Table, c: PoolConfig, cycle: string, now: int): Table {
    AfterRelease(AfterCapacity(AfterQuarantine(AfterExpiry(rows, c, now), c), c), cycle)
  }

  lemma NotSwept(rows: Table, who: Row -> bool, how: Row -> Row, id: nat)
    requires id in rows && !who(rows[id])
    ensures id in UpdateWhere(rows, who, how) && UpdateWhere(rows, who, how)[id] == rows[id]
  {
  }

  /** The sweeps that empty the pool pass a claim by. */
  lemma ClaimPassedBy(rows: Table, c: PoolConfig, now: int, id: nat)
    requires id in rows && rows[id].status.Pending?
    ensures var rows3 := AfterCapacity(AfterQuarantine(AfterExpiry(rows, c, now), c), c); id in rows3 && rows3[id] == rows[id]
  {
    hide UpdateWhere, Overflow, ActiveIds;
    var rows1 := AfterExpiry(rows, c, now);
    var rows2 := AfterQuarantine(rows1, c);
    NotSwept(rows, IsStale(Ago(now, c.ttlMinutes)), Expire(), id);
    NotSwept(rows1, KeepsFailing(c.maxFailures), Quarantine(), id);
    OverflowIsPart(rows2, c.maxActive);
    InPool(rows2, id);
  }

  lemma ClaimReleased(rows: Table, cycle: string, id: nat)
    requires id in rows && rows[id].status.Pending?
    ensures id in AfterRelease(rows, cycle) && AfterRelease(rows, cycle)[id].status.New?
  {
  }

  /** Every claim, whoever made it and whatever the row was before, ends as `new`. */
  lemma ClaimsEndAsNew(rows: Table, c: PoolConfig, cycle: string, now: int)
    ensures forall id | id in rows && rows[id].status.Pending? ::
              id in AfterSweeps(rows, c, cycle, now) && AfterSweeps(rows, c, cycle, now)[id].status.New?
  {
    hide AfterExpiry, AfterQuarantine, AfterCapacity, AfterRelease;
    forall id | id in rows && rows[id].status.Pending?
      ensures id in AfterSweeps(rows, c, cycle, now) && AfterSweeps(rows, c, cycle, now)[id].status.New?
    {
      ClaimPassedBy(rows, c, now, id);
      ClaimReleased(AfterCapacity(AfterQuarantine(AfterExpiry(rows, c, now), c), c), cycle, id);
    }
  }

  lemma MemberAfterSweeps(rows: Table, c: PoolConfig, now: int, id: nat)
    ensures var rows2 := AfterQuarantine(AfterExpiry(rows, c, now), c);
            && (id in ActiveIds(rows2) <==> id in HealthyIds(rows, c, now))
            && (id in ActiveIds(rows2) ==> id in rows && rows2[id] == rows[id])
  {
    var rows1 := AfterExpiry(rows, c, now);
    InPool(rows, id);
    InPool(rows1, id);
    InPool(AfterQuarantine(rows1, c), id);
  }

  /** After expiry and quarantine the pool consists of the healthy members, unchanged. */
  lemma ExpireThenQuarantine(rows: Table, c: PoolConfig, now: int)
    ensures var rows2 := AfterQuarantine(AfterExpiry(rows, c, now), c);
            && ActiveIds(rows2) == HealthyIds(rows, c, now)
            && (forall id | id in ActiveIds(rows2) :: id in rows && rows2[id] == rows[id])
  {
    forall id ensures var rows2 := AfterQuarantine(AfterExpiry(rows, c, now), c);
                      && (id in ActiveIds(rows2) <==> id in HealthyIds(rows, c, now))
                      && (id in ActiveIds(rows2) ==> id in rows && rows2[id] == rows[id]) {
      MemberAfterSweeps(rows, c, now, id);
    }
  }

  lemma ExpiryAndQuarantineCount(rows: Table, c: PoolConfig, now: int)
    ensures var rows1 := AfterExpiry(rows, c, now);
            |ActiveIds(rows)| == |ActiveIds(AfterQuarantine(rows1, c))|
               + |Matching(rows, IsStale(Ago(now, c.ttlMinutes)))| + |Matching(rows1, KeepsFailing(c.maxFailures))|
  {
    SweepOutOfPool(rows, IsStale(Ago(now, c.ttlMinutes)), Expire());
    SweepOutOfPool(AfterExpiry(rows, c, now), KeepsFailing(c.maxFailures), Quarantine());
  }

  lemma CapacityAt(rows: Table, c: PoolConfig, id: nat)
    ensures id in ActiveIds(AfterCapacity(rows, c)) <==> id in ActiveIds(rows) && id !in Overflow(rows, c.maxActive)
    ensures id in ActiveIds(AfterCapacity(rows, c)) ==>
              id in rows && id in AfterCapacity(rows, c) && AfterCapacity(rows, c)[id] == rows[id]
  {
    hide Overflow, ActiveIds;
    InPool(AfterCapacity(rows, c), id);
    InPool(rows, id);
  }

  lemma CapacitySweep(rows: Table, c: PoolConfig)
    ensures ActiveIds(AfterCapacity(rows, c)) == ActiveIds(rows) - Overflow(rows, c.maxActive)
    ensures forall id | id in ActiveIds(AfterCapacity(rows, c)) ::
              id in rows && id in AfterCapacity(rows, c) && AfterCapacity(rows, c)[id] == rows[id]
    ensures |ActiveIds(AfterCapacity(rows, c))| == |ActiveIds(rows)| - |Overflow(rows, c.maxActive)|
  {
    hide Overflow, ActiveIds, AfterCapacity;
    forall id
      ensures id in ActiveIds(AfterCapacity(rows, c)) <==> id in ActiveIds(rows) && id !in Overflow(rows, c.maxActive)
      ensures id in ActiveIds(AfterCapacity(rows, c)) ==>
                id in rows && id in AfterCapacity(rows, c) && AfterCapacity(rows, c)[id] == rows[id]
    {
      CapacityAt(rows, c, id);
    }
    assert ActiveIds(AfterCapacity(rows, c)) == ActiveIds(rows) - Overflow(rows, c.maxActive);
    OverflowIsPart(rows, c.maxActive);
    PartCount(ActiveIds(rows), Overflow(rows, c.maxActive));
  }

  /** The two release sweeps leave no claim behind, whoever made it, and no pool member changes. */
  lemma ReleaseSweeps(rows: Table, cycle: string)
    ensures Matching(AfterRelease(rows, cycle), IsPending()) == {}
    ensures ActiveIds(AfterRelease(rows, cycle)) == ActiveIds(rows)
    ensures forall id | id in ActiveIds(rows) :: id in AfterRelease(rows, cycle) && AfterRelease(rows, cycle)[id] == rows[id]
  {
    var rows2 := AfterRelease(rows, cycle);
    forall id ensures id in ActiveIds(rows2) <==> id in ActiveIds(rows) {
      InPool(rows2, id);
      InPool(rows, id);
    }
  }

  /** Together they count every claim exactly once. */
  lemma ReleasesAddUp(rows: Table, cycle: string)
    ensures var rows1 := UpdateWhere(rows, ClaimedBy(cycle), Release());
            |Matching(rows, ClaimedBy(cycle))| + |Matching(rows1, ClaimedElsewhere(cycle))| == |Matching(rows, IsPending())|
  {
    var rows1 := UpdateWhere(rows, ClaimedBy(cycle), Release());
    var mine, all := Matching(rows, ClaimedBy(cycle)), Matching(rows, IsPending());
    assert Matching(rows1, ClaimedElsewhere(cycle)) == all - mine;
    PartCount(all, mine);
  }

  lemma SweepKeepsClaims(rows: Table, who: Row -> bool, how: Row -> Row)
    requires forall r :: who(r) ==> r.status.Active? && !how(r).status.Pending?
    ensures Matching(UpdateWhere(rows, who, how), IsPending()) == Matching(rows, IsPending())
  {
  }

  lemma ClaimAtCapacity(rows: Table, c: PoolConfig, id: nat)
    ensures id in Matching(AfterCapacity(rows, c), IsPending()) <==> id in Matching(rows, IsPending())
  {
    hide Overflow, ActiveIds;
    OverflowIsPart(rows, c.maxActive);
    InPool(rows, id);
  }

  lemma CapacityKeepsClaims(rows: Table, c: PoolConfig)
    ensures Matching(AfterCapacity(rows, c), IsPending()) == Matching(rows, IsPending())
  {
    hide AfterCapacity, Matching;
    forall id ensures id in Matching(AfterCapacity(rows, c), IsPending()) <==> id in Matching(rows, IsPending()) {
      ClaimAtCapacity(rows, c, id);
    }
  }

  lemma RanksTheSame(rows: Table, rows': Table, kept: nat, out: nat)
    requires StaysOver(rows, kept, out)
    requires kept in rows' && out in rows' && rows'[kept] == rows[kept] && rows'[out] == rows[out]
    ensures StaysOver(rows', kept, out)
  {
  }

  lemma SweepsGiveBestHealthy(rows: Table, c: PoolConfig, now: int)
    ensures var rows3 := AfterCapacity(AfterQuarantine(AfterExpiry(rows, c, now), c), c);
            && BestHealthyKept(rows, rows3, c, now)
            && forall id | id in ActiveIds(rows3) :: Healthy(rows3[id], c, now)
  {
    hide AfterCapacity, AfterQuarantine, AfterExpiry, Overflow, ActiveIds, StaysOver;
    var rows2 := AfterQuarantine(AfterExpiry(rows, c, now), c);
    var rows3 := AfterCapacity(rows2, c);
    ExpireThenQuarantine(rows, c, now);
    CapacitySweep(rows2, c);
    CapacityKeepsTheBest(rows2, c.maxActive);
    forall kept, out | kept in ActiveIds(rows3) && out in ActiveIds(rows2) - ActiveIds(rows3) ensures StaysOver(rows, kept, out) {
      RanksTheSame(rows2, rows, kept, out);
    }
    forall id | id in ActiveIds(rows3) ensures Healthy(rows3[id], c, now) {
      assert id in ActiveIds(rows2);
      assert id in HealthyIds(rows, c, now);
    }
  }

  /** What the sweeps make of a table, taken together. */
  lemma SweepsSettle(rows: Table, c: PoolConfig, cycle: string, now: int)
    ensures var rows3 := AfterCapacity(AfterQuarantine(AfterExpiry(rows, c, now), c), c);
            Settled(AfterRelease(rows3, cycle), c, now) && BestHealthyKept(rows, AfterRelease(rows3, cycle), c, now)
  {
    var rows3 := AfterCapacity(AfterQuarantine(AfterExpiry(rows, c, now), c), c);
    SweepsGiveBestHealthy(rows, c, now);
    ReleaseSweeps(rows3, cycle);
  }

  /** Every member that leaves the pool is counted by exactly one sweep, and every claim by one release. */
  lemma SweepsAddUp(rows: Table, c: PoolConfig, cycle: string, now: int)
    ensures var rows1 := AfterExpiry(rows, c, now);
            var rows2 := AfterQuarantine(rows1, c);
            var rows3 := AfterCapacity(rows2, c);
            var rows4 := UpdateWhere(rows3, ClaimedBy(cycle), Release());
            && |ActiveIds(rows)| == |ActiveIds(AfterRelease(rows3, cycle))|
               + |Matching(rows, IsStale(Ago(now, c.ttlMinutes)))| + |Matching(rows1, KeepsFailing(c.maxFailures))|
               + |Overflow(rows2, c.maxActive)|
            && |Matching(rows, IsPending())| == |Matching(rows3, ClaimedBy(cycle))| + |Matching(rows4, ClaimedElsewhere(cycle))|
  {
    var rows1 := AfterExpiry(rows, c, now);
    var rows2 := AfterQuarantine(rows1, c);
    var rows3 := AfterCapacity(rows2, c);
    ExpiryAndQuarantineCount(rows, c, now);
    CapacitySweep(rows2, c);
    ReleaseSweeps(rows3, cycle);
    SweepKeepsClaims(rows, IsStale(Ago(now, c.ttlMinutes)), Expire());
    SweepKeepsClaims(rows1, KeepsFailing(c.maxFailures), Quarantine());
    CapacityKeepsClaims(rows2, c);
    ReleasesAddUp(rows3, cycle);
  }

  // ------------------------------------------------------------------ what pool membership means

  /** In the log of a pool member: a pass inside the TTL with fewer failures after it than the threshold. */
  ghost predicate ProvenBy(h: seq<Check>, k: nat, c: PoolConfig, now: int) {
    && k < |h| && h[k].passed
    && h[k].at >= Ago(now, c.ttlMinutes)
    && |h| - 1 - k < c.maxFailures
    && forall j | k < j < |h| :: !h[j].passed
  }

  /** Because the counters mirror the log, membership after the sweeps is a statement about the recorded checks. */
  lemma MembersAreProven(db: Db, c: PoolConfig, now: int)
    requires Faithful(db) && Settled(db.rows, c, now)
    ensures forall id | id in ActiveIds(db.rows) :: exists k :: ProvenBy(db.log[id], k, c, now)
  {
    forall id | id in ActiveIds(db.rows) ensures exists k :: ProvenBy(db.log[id], k, c, now) {
      var h := db.log[id];
      assert CountersMatch(db.rows[id], h);
      TrailingRun(h);
      assert ProvenBy(h, |h| - 1 - TrailingFailures(h), c, now);
    }
  }

  ghost predicate Unfiltered(q: PoolQuery) { q.minScore <= 0 && q.maxLatency.None? && !q.service.Required? && q.columns.None? }

  /** A read at the time of the sweeps, with the same TTL and no filters, finds exactly the pool. */
  lemma SettledPoolIsReadable(rows: Table, c: PoolConfig, q: PoolQuery)
    requires Settled(rows, c, q.now) && Unfiltered(q) && q.ttlMinutes == c.ttlMinutes
    ensures Eligible(rows, q) == ActiveIds(rows)
  {
    forall id | id in ActiveIds(rows) ensures id in Eligible(rows, q) {
      assert Healthy(rows[id], c, q.now);
    }
  }
}

/** The pool manager: loops that plan writes, and the sweeps that end a cycle. */
module PoolManagement {
  import opened Common
  import opened Scoring
  import opened PoolTable
  import opened RepositoryRules
  import opened PoolRules
  import opened Repository

  class PoolManager {
    const proxies: ProxiesRepository
    const config: PoolConfig

    constructor (proxies: ProxiesRepository, config: PoolConfig)
      ensures this.proxies == proxies && this.config == config
    {
      this.proxies, this.config := proxies, config;
    }

    method PlanValidation(rows: seq<Snapshot>, replies: seq<Reply>, now: int, trust: map<string, real>)
      returns (updates: seq<Outcome>, tally: Tally)
      ensures updates == Plan(ById(rows), replies, now, trust, config)
      ensures TallyOf(tally, ById(rows), updates)
      ensures UpdatesShowAnswers(ById(rows), replies, updates, now, trust, config)
    {
      hide PlanOne, TallyOf, Plan, UpdatesShowAnswers;
      var byId := ById(rows);
      updates, tally := [], Tally(0, 0, 0, 0, 0, 0);
      NothingPlannedYet(byId, now, trust, config);
      for i := 0 to |replies|
        invariant updates == Plan(byId, replies[..i], now, trust, config)
        invariant TallyOf(tally, byId, updates)
      {
        var reply := replies[i];
        assert replies[..i + 1] == replies[..i] + [reply];
        PlanGrows(byId, replies[..i], reply, now, trust, config);
        if reply.id !in byId {
          continue;
        }
        var row := byId[reply.id];
        var o := PlanOne(row, reply, now, trust, config);
        tally := Count(tally, row, reply, o.status, byId, updates, o);
        updates := updates + [o];
      }
      assert replies[..|replies|] == replies;
      PlanShowsAnswers(byId, replies, now, trust, config);
    }

    /** How one answer is counted. */
    method Count(before: Tally, row: Row, reply: Reply, status: Status, ghost byId: map<nat, Row>, ghost updates: seq<Outcome>, ghost o: Outcome)
      returns (tally: Tally)
      requires TallyOf(before, byId, updates)
      requires o.status == status && o.reachable == reply.reachable && o.id in byId && byId[o.id] == row
      ensures TallyOf(tally, byId, updates + [o])
    {
      tally := before.(checked := before.checked + 1);
      if reply.reachable {
        tally := tally.(passed := tally.passed + 1);
      } else {
        tally := tally.(failed := tally.failed + 1);
      }
      match status {
        case Active =>
          if !reply.reachable || row.status.Active? {
            tally := tally.(retained := tally.retained + 1);
          } else {
            tally := tally.(added := tally.added + 1);
          }
        case Quarantined => tally := tally.(quarantined := tally.quarantined + 1);
        case _ =>
      }
      assert (updates + [o])[..|updates|] == updates;
    }

    method PlanService(rows: seq<Snapshot>, results: seq<ServiceResult>, now: int, ghost table: Table)
      returns (planned: seq<ServiceOutcome>)
      requires Current(table, rows)
      ensures NeverEvicts(table, planned)
      ensures planned == ServicePlan(ById(rows), results, now, config)
      ensures OutcomesShowVerdicts(ById(rows), results, planned, now, config)
    {
      hide PlanServiceOne, OutcomesShowVerdicts;
      var byId := ById(rows);
      IndexIsCurrent(table, rows);
      planned := [];
      for i := 0 to |results|
        invariant planned == ServicePlan(byId, results[..i], now, config)
      {
        var result := results[i];
        assert results[..i + 1][..i] == results[..i];
        if result.id in byId {
          planned := planned + [PlanServiceOne(byId[result.id], result, now, config)];
        }
      }
      assert results[..|results|] == results;
      ServicePlanNeverEvicts(table, byId, results, now, config);
      ServicePlanShowsVerdicts(byId, results, now, config);
    }

    /**
     * The sweeps that end a cycle. From any table whatever, if all of them get through, no claim is left, the pool is
     * the best of its healthy members within the cap, and each member that left was counted by one sweep.
     */
    method Finalize(cycle: string, now: int)
      returns (expired: nat, quarantined: nat, demoted: nat, released: nat, poolSize: nat, fate: Fate)
      requires proxies.Valid()
      modifies proxies
      ensures proxies.Valid() && proxies.log == old(proxies.log)
      ensures fate == Done ==> proxies.rows == AfterSweeps(old(proxies.rows), config, cycle, now)
      ensures fate == Done ==> Settled(proxies.rows, config, now)
      ensures fate == Done ==> BestHealthyKept(old(proxies.rows), proxies.rows, config, now)
      ensures fate == Done ==> poolSize == |ActiveIds(proxies.rows)|
      ensures fate == Done ==> |ActiveIds(old(proxies.rows))| == poolSize + expired + quarantined + demoted
      ensures fate == Done ==> released == |Matching(old(proxies.rows), IsPending())|
    {
      hide Faithful, UniqueKeys, Settled, BestHealthyKept, Overflow, ActiveIds, UpdateWhere, UpdateIds, Matching;
      quarantined, demoted, released, poolSize := 0, 0, 0, 0;
      ghost var rows0 := proxies.rows;
      expired, fate := proxies.ExpireStale(config.ttlMinutes, now);
      if fate != Done { return; }
      ghost var rows1 := proxies.rows;
      quarantined, fate := proxies.QuarantineFailures(config.maxFailures);
      if fate != Done { return; }
      ghost var rows2 := proxies.rows;
      demoted, fate := proxies.EnforcePoolCapacity(config.maxActive);
      if fate != Done { return; }
      ghost var rows3 := proxies.rows;
      released, fate := proxies.ReleaseOrphanedPending(cycle);
      if fate != Done { return; }
      var foreign: nat;
      foreign, fate := proxies.ReleaseForeignPending(cycle);
      if fate != Done { return; }
      assert proxies.rows == AfterRelease(rows3, cycle);
      SweepsSettle(rows0, config, cycle, now);
      SweepsAddUp(rows0, config, cycle, now);
      released := released + foreign;
      poolSize := proxies.CountActive();
      fate := proxies.Attempt();
    }
  }
}
