/**
 * The refresh cycle: the order of its stages, its failure path, and any number of cycles in a row.
 *
 * Everything the outside world decides is an input: what discovery found, what the probes answered and in which
 * order, and the clock readings. Where a database call fails or the process dies is decided inside `Commit` and
 * `Attempt`. One writer runs the cycles.
 */
module RefreshCycle {
  import opened Common
  import opened Scoring
  import opened PoolTable
  import opened Listing
  import opened Ranking
  import opened RepositoryRules
  import opened Repository
  import opened PoolRules
  import opened PoolManagement

  datatype CycleConfig = CycleConfig(
    newLimit: int,
    quarantineLimit: int,
    recheckLimit: int,
    recheckAfterMinutes: int,
    maxPerCycle: nat,
    serviceBudget: int,
    serviceMinScore: int,
    serviceRecheckMinutes: int)

  datatype CycleInput = CycleInput(
    cycle: string,
    candidates: seq<Candidate>,
    trust: map<string, real>,
    replies: seq<Reply>,
    verdicts: seq<ServiceResult>,
    upsertAt: int,
    selectAt: int,
    planAt: int,
    serviceSelectAt: int,
    servicePlanAt: int,
    finalizeAt: int,
    pruneDue: bool,
    pruneSeenBefore: int)

  datatype CycleResult = Completed(poolSize: nat) | Failed(released: bool) | Died

  /** No later answer about the same row was delivered. */
  ghost predicate IsLatest(delivered: seq<Reply>, r: Reply) {
    exists i :: 0 <= i < |delivered| && delivered[i] == r && forall j | i < j < |delivered| :: delivered[j].id != r.id
  }

  /** The answers that reach the outcome map of a cycle: the latest one for each queued row that was answered. */
  method CollectReplies(queued: set<nat>, delivered: seq<Reply>) returns (outcomes: seq<Reply>)
    ensures DistinctReplies(outcomes)
    ensures forall o <- outcomes :: o.id in queued && IsLatest(delivered, o)
    ensures forall d <- delivered :: d.id in queued ==> exists o :: o in outcomes && o.id == d.id
  {
    outcomes := [];
    for i := 0 to |delivered|
      invariant DistinctReplies(outcomes)
      invariant forall o <- outcomes :: o.id in queued && IsLatest(delivered[..i], o)
      invariant forall k | 0 <= k < i && delivered[k].id in queued :: Answered(outcomes, delivered[k].id)
    {
      var reply := delivered[i];
      ghost var before := outcomes;
      assert delivered[..i + 1] == delivered[..i] + [reply];
      if reply.id in queued {
        outcomes := Put(outcomes, reply);
      }
      LatestStays(delivered[..i], before, reply, outcomes);
      forall k | 0 <= k <= i && delivered[k].id in queued ensures Answered(outcomes, delivered[k].id) {
        assert k < i ==> Answered(before, delivered[k].id);
      }
    }
    assert delivered[..|delivered|] == delivered;
    forall d <- delivered | d.id in queued ensures exists o :: o in outcomes && o.id == d.id {
      assert Answered(outcomes, d.id);
    }
  }

  lemma LatestStays(delivered: seq<Reply>, before: seq<Reply>, reply: Reply, after: seq<Reply>)
    requires forall o <- before :: IsLatest(delivered, o)
    requires forall o <- after :: o == reply || (o in before && o.id != reply.id)
    ensures forall o <- after :: IsLatest(delivered + [reply], o)
  {
    var more := delivered + [reply];
    forall o <- after ensures IsLatest(more, o) {
      if o == reply {
        assert more[|delivered|] == o;
      } else {
        var i :| 0 <= i < |delivered| && delivered[i] == o && forall j | i < j < |delivered| :: delivered[j].id != o.id;
        assert more[i] == o && forall j | i < j < |delivered| :: more[j] == delivered[j];
      }
    }
  }

  predicate Answered(outcomes: seq<Reply>, id: nat) { exists k :: 0 <= k < |outcomes| && outcomes[k].id == id }

  /** `Map.set`: an existing entry keeps its place. */
  method Put(outcomes: seq<Reply>, r: Reply) returns (s: seq<Reply>)
    requires DistinctReplies(outcomes)
    ensures DistinctReplies(s)
    ensures r in s && forall o <- s :: o == r || (o in outcomes && o.id != r.id)
    ensures forall id :: Answered(s, id) <==> Answered(outcomes, id) || id == r.id
  {
    if Answered(outcomes, r.id) {
      var k :| 0 <= k < |outcomes| && outcomes[k].id == r.id;
      s := outcomes[k := r];
      assert s[k] == r;
      assert forall j | 0 <= j < |s| :: s[j].id == outcomes[j].id;
    } else {
      s := outcomes + [r];
      assert s[|outcomes|] == r;
      assert forall j | 0 <= j < |outcomes| :: s[j] == outcomes[j] && s[j].id != r.id;
    }
  }

  // ------------------------------------------------------------------ what a step of a cycle leaves alone

  /** Every claim in the first table is a claim in the second. */
  ghost predicate StillPending(before: Table, after: Table) {
    forall id | id in before && before[id].status.Pending? :: id in after && after[id].status.Pending?
  }

  /** No logged check is lost, and logs that are in time order up to `t` stay so. */
  ghost predicate LogsKept(before: Db, after: Db, t: int) {
    HistoryKept(before, after) && before.log.Keys <= after.log.Keys && (Timely(before.log, t) ==> Timely(after.log, t))
  }

  lemma LogsKeptOn(a: Db, b: Db, c: Db, t: int)
    requires LogsKept(a, b, t) && LogsKept(b, c, t)
    ensures LogsKept(a, c, t)
  {
    hide Timely;
    HistoryChain(a, b, c);
  }

  lemma SameLogsKept(a: Db, b: Db, t: int)
    requires a.log == b.log
    ensures LogsKept(a, b, t)
  {
  }

  lemma ExtendedKeepsLogs(a: Db, b: Db, t: int)
    requires b.log == ExtendedLog(a.log, b.rows) && a.log.Keys <= b.log.Keys
    ensures LogsKept(a, b, t)
  {
    ExtendingKeeps(a, b.rows);
  }

  lemma UpsertKeepsClaims(rows: Table, rows': Table, cs: seq<Candidate>, cycle: string, now: int)
    requires Upserted(rows, rows', cs, cycle, now)
    ensures StillPending(rows, rows')
  {
    hide OthersNew, HasKey, UniqueKeys, Mentions;
    forall id | id in rows && rows[id].status.Pending? ensures id in rows' && rows'[id].status.Pending? {
      assert KnownTouched(rows, rows', cs, cycle, now);
    }
  }

  lemma ClaimKeepsClaims(rows: Table, ids: set<nat>, cycle: string)
    ensures StillPending(rows, Claim(rows, ids, cycle))
  {
  }

  // ------------------------------------------------------------------ validation stage

  ghost predicate Unanswered(delivered: seq<Reply>, id: nat) { forall d <- delivered :: d.id != id }

  /** A row as the queue found it, claimed. */
  ghost function AsClaimed(r: Row, cycle: string): Row { r.(status := Pending, lastCycle := Some(cycle)) }

  /** The row shows the latest answer about it, as validation records one. */
  ghost predicate ShowsLatest(after: Row, s: Snapshot, input: CycleInput, c: PoolConfig) {
    exists o :: IsLatest(input.replies, o) && o.id == s.id && ShowsAnswer(s.row, after, o, input.planAt, input.trust, c)
  }

  /** Where a validation stage leaves a queued row: claimed and otherwise as it was, or showing the latest answer about it. */
  ghost predicate ClaimedOrAnswered(rows: Table, s: Snapshot, input: CycleInput, c: PoolConfig) {
    && s.id in rows
    && if Unanswered(input.replies, s.id) then rows[s.id] == AsClaimed(s.row, input.cycle)
       else ShowsLatest(rows[s.id], s, input, c)
  }

  /**
   * Claims the queued rows, plans and writes their outcomes. When all writes get through, a queued row without an
   * outcome is still claimed, whatever it was before; one with an outcome has the planned status. Wherever the stage
   * stops, claims that were there before are still there.
   */
  method ValidationStage(pool: PoolManager, rows: seq<Snapshot>, input: CycleInput) returns (fate: Fate, ghost outcomes: seq<Reply>)
    requires pool.proxies.Valid()
    requires Current(pool.proxies.rows, rows) && forall s <- rows :: Claimable(s.row)
    modifies pool.proxies
    ensures pool.proxies.Valid()
    ensures LogsKept(old(pool.proxies.State()), pool.proxies.State(), input.planAt)
    ensures StillPending(old(pool.proxies.rows), pool.proxies.rows)
    ensures fate == Done ==> DistinctReplies(outcomes) && forall o <- outcomes :: IsLatest(input.replies, o)
    ensures fate == Done ==>
              var claimed := Db(Claim(old(pool.proxies.rows), ToSet(Ids(rows)), input.cycle), old(pool.proxies.log));
              pool.proxies.State() == Recorded(claimed, Plan(ById(rows), outcomes, input.planAt, input.trust, pool.config))
    ensures fate == Done ==> forall s <- rows :: ClaimedOrAnswered(pool.proxies.rows, s, input, pool.config)
  {
    hide Plan, Recorded, Faithful, UniqueKeys, Timely, HistoryKept, ClaimedOrAnswered, IsLatest, Claim, StillPending;
    var proxies := pool.proxies;
    ghost var table, start := proxies.rows, proxies.State();
    outcomes := [];
    var ids := Ids(rows);
    ghost var marked;
    fate, marked := proxies.MarkPending(ids, input.cycle);
    ClaimKeepsClaims(table, ToSet(Flatten(Chunks(ids, WRITE_CHUNK)[..marked])), input.cycle);
    ghost var claimed := proxies.State();
    SameLogsKept(start, claimed, input.planAt);
    if fate != Done { return; }
    var collected := CollectReplies(ToSet(ids), input.replies);
    outcomes := collected;
    var updates, tally := pool.PlanValidation(rows, collected, input.planAt, input.trust);
    PlanFitsClaims(table, rows, outcomes, input, pool.config);
    ghost var written: nat;
    fate, written := proxies.PersistValidationOutcomes(updates);
    PlannedWritesKeepClaims(table, claimed.rows, proxies.rows, rows, updates);
    assert LogsKept(claimed, proxies.State(), input.planAt);
    LogsKeptOn(start, claimed, proxies.State(), input.planAt);
    if fate == Done {
      forall s <- rows ensures ClaimedOrAnswered(proxies.rows, s, input, pool.config) {
        ClaimedUnlessAnswered(claimed, table, rows, outcomes, s, input, pool.config);
      }
    }
  }

  /** What is planned for a queue fits the table with the queue claimed, and is about queued rows at the time of planning. */
  lemma PlanFitsClaims(table: Table, rows: seq<Snapshot>, outcomes: seq<Reply>, input: CycleInput, c: PoolConfig)
    requires Current(table, rows) && DistinctReplies(outcomes)
    ensures var updates := Plan(ById(rows), outcomes, input.planAt, input.trust, c);
            && Consistent(Claim(table, ToSet(Ids(rows)), input.cycle), updates)
            && forall u <- updates :: u.at == input.planAt && u.id in ToSet(Ids(rows))
  {
    IndexIsCurrent(table, rows);
    PlanIsConsistent(Claim(table, ToSet(Ids(rows)), input.cycle), ById(rows), outcomes, input.planAt, input.trust, c);
    PlanAnswers(ById(rows), outcomes, input.planAt, input.trust, c);
  }

  /** Writes about rows that could be claimed leave every earlier claim as it was. */
  lemma PlannedWritesKeepClaims(table: Table, claimed: Table, after: Table, rows: seq<Snapshot>, updates: seq<Outcome>)
    requires Current(table, rows) && forall s <- rows :: Claimable(s.row)
    requires StillPending(table, claimed) && forall u <- updates :: u.id in ToSet(Ids(rows))
    requires forall id | id in claimed && (forall u <- updates :: u.id != id) :: id in after && after[id] == claimed[id]
    ensures StillPending(table, after)
  {
    forall id | id in table && table[id].status.Pending? ensures id in after && after[id].status.Pending? {
      QueuedIsClaimable(table, rows, id);
      assert forall u <- updates :: u.id != id;
    }
  }

  lemma QueuedIsClaimable(table: Table, rows: seq<Snapshot>, id: nat)
    requires Current(table, rows) && forall s <- rows :: Claimable(s.row)
    ensures id in ToSet(Ids(rows)) ==> id in table && Claimable(table[id])
  {
    IdsAt(rows);
    if id in ToSet(Ids(rows)) {
      var k :| 0 <= k < |rows| && Ids(rows)[k] == id;
      assert Claimable(rows[k].row);
    }
  }

  /** After the writes, a queued row is only claimed if no answer about it was delivered, and shows the latest one otherwise. */
  lemma ClaimedUnlessAnswered(claimed: Db, table: Table, rows: seq<Snapshot>, outcomes: seq<Reply>, s: Snapshot, input: CycleInput, c: PoolConfig)
    requires Faithful(claimed) && Current(table, rows) && s in rows && Claimable(s.row)
    requires claimed.rows == Claim(table, ToSet(Ids(rows)), input.cycle)
    requires DistinctReplies(outcomes)
    requires forall o <- outcomes :: IsLatest(input.replies, o)
    requires forall d <- input.replies :: d.id in ToSet(Ids(rows)) ==> exists o :: o in outcomes && o.id == d.id
    ensures ClaimedOrAnswered(Recorded(claimed, Plan(ById(rows), outcomes, input.planAt, input.trust, c)).rows, s, input, c)
  {
    hide Plan, Recorded, Faithful, ShowsAnswer, IsLatest;
    IndexIsCurrent(table, rows);
    QueuedId(rows, s);
    PlanFitsClaims(table, rows, outcomes, input, c);
    if d :| d in input.replies && d.id == s.id {
      var o :| o in outcomes && o.id == d.id;
      assert ById(rows)[s.id] == s.row && o.id == s.id;
      AnsweredShows(claimed, ById(rows), outcomes, o, input, c);
    } else {
      forall o <- outcomes ensures o.id != s.id {
        LatestWasDelivered(input.replies, o);
      }
      UnansweredKeepsStatus(claimed, ById(rows), outcomes, s.id, input, c);
    }
  }

  lemma QueuedId(rows: seq<Snapshot>, s: Snapshot)
    requires s in rows
    ensures s.id in ToSet(Ids(rows))
  {
    IdsAt(rows);
    var k :| 0 <= k < |rows| && rows[k] == s;
    assert Ids(rows)[k] == s.id;
  }

  lemma AnsweredShows(claimed: Db, byId: map<nat, Row>, outcomes: seq<Reply>, o: Reply, input: CycleInput, c: PoolConfig)
    requires Faithful(claimed) && o in outcomes && o.id in byId && o.id in claimed.rows
    requires claimed.rows[o.id] == AsClaimed(byId[o.id], input.cycle)
    requires Consistent(claimed.rows, Plan(byId, outcomes, input.planAt, input.trust, c))
    ensures var after := Recorded(claimed, Plan(byId, outcomes, input.planAt, input.trust, c)).rows;
            o.id in after && ShowsAnswer(byId[o.id], after[o.id], o, input.planAt, input.trust, c)
  {
    hide PlanOne, Plan, Recorded, Consistent, ShowsAnswer, Updated;
    var updates := Plan(byId, outcomes, input.planAt, input.trust, c);
    PlanAnswers(byId, outcomes, input.planAt, input.trust, c);
    var m :| 0 <= m < |outcomes| && outcomes[m] == o;
    var u := PlanOne(byId[o.id], o, input.planAt, input.trust, c);
    assert u in updates;
    var n :| 0 <= n < |updates| && updates[n] == u;
    PlannedShowsAnswer(byId[o.id], claimed.rows[o.id], o, input.planAt, input.trust, c);
    FaithfulKeys(claimed);
    PlannedRowUpdated(claimed, updates, n);
  }

  lemma UnansweredKeepsStatus(claimed: Db, byId: map<nat, Row>, outcomes: seq<Reply>, id: nat, input: CycleInput, c: PoolConfig)
    requires Faithful(claimed) && id in claimed.rows && forall o <- outcomes :: o.id != id
    requires Consistent(claimed.rows, Plan(byId, outcomes, input.planAt, input.trust, c))
    ensures var after := Recorded(claimed, Plan(byId, outcomes, input.planAt, input.trust, c)).rows;
            id in after && after[id] == claimed.rows[id]
  {
    var updates := Plan(byId, outcomes, input.planAt, input.trust, c);
    PlanAnswers(byId, outcomes, input.planAt, input.trust, c);
    forall u <- updates ensures u.id != id {
      var m :| 0 <= m < |outcomes| && outcomes[m].id in byId && u == PlanOne(byId[outcomes[m].id], outcomes[m], input.planAt, input.trust, c);
      assert outcomes[m] in outcomes;
    }
    OtherRowKept(claimed, updates, id);
  }

  // ------------------------------------------------------------------ service stage

  ghost predicate WorthChecking(r: Row, minScore: int) {
    r.validation.Reached? && r.score >= minScore && !r.service.Passed?
  }

  ghost function NewlyPassed(rows: Table, queued: set<nat>, minScore: int): set<nat> {
    set id | id in queued && id in rows && WorthChecking(rows[id], minScore)
  }

  ghost function StaleVerdicts(rows: Table, minScore: int, cutoff: int): set<nat> {
    Matching(rows, (r: Row) => r.status.Active? && r.score >= minScore && OlderThan(r.serviceChecked, cutoff))
  }

  ghost predicate ServiceDue(rows: Table, queued: set<nat>, id: nat, cfg: CycleConfig, input: CycleInput) {
    id in rows
    && ((id in queued && WorthChecking(rows[id], cfg.serviceMinScore))
        || id in StaleVerdicts(rows, cfg.serviceMinScore, Ago(input.serviceSelectAt, cfg.serviceRecheckMinutes)))
  }

  /** The ids not yet seen, in their order. */
  ghost function Without(ids: seq<nat>, seen: set<nat>): seq<nat> {
    if ids == [] then []
    else Without(ids[..|ids| - 1], seen) + if ids[|ids| - 1] in seen then [] else [ids[|ids| - 1]]
  }

  lemma {:induction false} WithoutMeans(ids: seq<nat>, seen: set<nat>)
    ensures forall x :: x in Without(ids, seen) <==> x in ids && x !in seen
    ensures |Without(ids, seen)| <= |ids|
    ensures Distinct(ids) ==> Distinct(Without(ids, seen))
  {
    if ids != [] {
      assert ids == ids[..|ids| - 1] + [ids[|ids| - 1]];
      WithoutMeans(ids[..|ids| - 1], seen);
    }
  }

  /**
   * The rows a service stage looks at: of the queued ones worth checking those of highest score, and if the budget
   * leaves room, of the members with an old verdict those of highest score and then lowest latency.
   */
  ghost predicate IsSelection(rows: Table, queued: set<nat>, cfg: CycleConfig, input: CycleInput, chosen: seq<nat>) {
    var cutoff := Ago(input.serviceSelectAt, cfg.serviceRecheckMinutes);
    exists worth, stale ::
      && TakenFirst(worth, NewlyPassed(rows, queued, cfg.serviceMinScore), HighestScore(rows), cfg.serviceBudget)
      && TakenFirst(stale, StaleVerdicts(rows, cfg.serviceMinScore, cutoff), HighestThenFastest(rows), cfg.serviceBudget - |worth|)
      && chosen == worth + Without(stale, ToSet(worth))
  }

  /** At most `budget` rows: freshly validated ones first, then members whose verdict is old. */
  method SelectCandidates(proxies: ProxiesRepository, queued: set<nat>, cfg: CycleConfig, input: CycleInput)
    returns (candidates: seq<Snapshot>)
    requires cfg.serviceBudget > 0
    ensures Current(proxies.rows, candidates) && |candidates| <= cfg.serviceBudget && Distinct(Ids(candidates))
    ensures IsSelection(proxies.rows, queued, cfg, input, Ids(candidates))
    ensures forall k | 0 <= k < |candidates| :: ServiceDue(proxies.rows, queued, candidates[k].id, cfg, input)
  {
    hide Top, Ids, Distinct, Without, ToSet, IsSelection, TakenFirst, StaleVerdicts, NewlyPassed, ServiceDue;
    var budget := cfg.serviceBudget;
    var worth := set id |
      && id in queued && id in proxies.rows && proxies.rows[id].validation == Reached
      && proxies.rows[id].score >= cfg.serviceMinScore && proxies.rows[id].service != ServiceStatus.Passed;
    var newlyPassed := proxies.Select(worth, ScoreOnly, budget);
    var cutoff := input.serviceSelectAt - cfg.serviceRecheckMinutes * 60_000;
    var old' := set id |
      && id in proxies.rows && proxies.rows[id].status == Active && proxies.rows[id].score >= cfg.serviceMinScore
      && (proxies.rows[id].serviceChecked == None || proxies.rows[id].serviceChecked.value < cutoff);
    var stale := proxies.Select(old', ServiceQueue, budget - |newlyPassed|);
    var seen := set s | s in newlyPassed :: s.id;
    var unseen := Unseen(stale, seen);
    candidates := Slice(newlyPassed + unseen, 0, budget);
    CandidatesWhere(proxies.rows, queued, cfg, input, worth, old', cutoff);
    SeenIds(newlyPassed, seen);
    Selected(proxies.rows, queued, cfg, input, newlyPassed, stale, unseen);
  }

  lemma CandidatesWhere(rows: Table, queued: set<nat>, cfg: CycleConfig, input: CycleInput, worth: set<nat>, old': set<nat>, cutoff: int)
    requires cutoff == input.serviceSelectAt - cfg.serviceRecheckMinutes * 60_000
    requires worth == set id |
                        && id in queued && id in rows && rows[id].validation == Reached
                        && rows[id].score >= cfg.serviceMinScore && rows[id].service != ServiceStatus.Passed
    requires old' == set id |
                       && id in rows && rows[id].status == Active && rows[id].score >= cfg.serviceMinScore
                       && (rows[id].serviceChecked == None || rows[id].serviceChecked.value < cutoff)
    ensures worth == NewlyPassed(rows, queued, cfg.serviceMinScore)
    ensures old' == StaleVerdicts(rows, cfg.serviceMinScore, Ago(input.serviceSelectAt, cfg.serviceRecheckMinutes))
  {
  }

  lemma SeenIds(found: seq<Snapshot>, seen: set<nat>)
    requires seen == set s | s in found :: s.id
    ensures seen == ToSet(Ids(found))
  {
    IdsAt(found);
    forall id ensures id in seen <==> id in ToSet(Ids(found)) {
      if id in seen {
        var s :| s in found && s.id == id;
        var k :| 0 <= k < |found| && found[k] == s;
        assert Ids(found)[k] == id;
      }
      if id in ToSet(Ids(found)) {
        var k :| 0 <= k < |found| && Ids(found)[k] == id;
        assert found[k] in found;
      }
    }
  }

  /** `filter((row) => !seen.has(row.id))` */
  method Unseen(found: seq<Snapshot>, seen: set<nat>) returns (rest: seq<Snapshot>)
    ensures Ids(rest) == Without(Ids(found), seen)
    ensures forall s <- rest :: s in found
  {
    hide Ids;
    rest := [];
    NoIds();
    for i := 0 to |found|
      invariant Ids(rest) == Without(Ids(found[..i]), seen)
      invariant forall s <- rest :: s in found
    {
      assert found[..i + 1] == found[..i] + [found[i]];
      OneMoreId(found[..i], found[i]);
      if found[i].id !in seen {
        OneMoreId(rest, found[i]);
        rest := rest + [found[i]];
      }
      assert Ids(found[..i + 1])[..|Ids(found[..i + 1])| - 1] == Ids(found[..i]);
    }
    assert found[..|found|] == found;
  }

  /** What the two queries and the filter found. */
  ghost predicate FoundByQueries(rows: Table, worth: set<nat>, old': set<nat>, budget: int,
                                 newly: seq<Snapshot>, stale: seq<Snapshot>, unseen: seq<Snapshot>) {
    && worth <= rows.Keys && old' <= rows.Keys && budget > 0
    && Ids(newly) == Top(rows, worth, ScoreOnly, budget)
    && Ids(stale) == Top(rows, old', ServiceQueue, budget - |newly|)
    && Ids(unseen) == Without(Ids(stale), ToSet(Ids(newly)))
    && Current(rows, newly) && Current(rows, stale) && forall s <- unseen :: s in stale
  }

  lemma FoundInTurn(rows: Table, worth: set<nat>, old': set<nat>, budget: int,
                    newly: seq<Snapshot>, stale: seq<Snapshot>, unseen: seq<Snapshot>)
    requires FoundByQueries(rows, worth, old', budget, newly, stale, unseen)
    ensures TakenFirst(Ids(newly), worth, HighestScore(rows), budget)
    ensures TakenFirst(Ids(stale), old', HighestThenFastest(rows), budget - |newly|)
    ensures |newly| + |unseen| <= budget && |Ids(newly)| == |newly|
  {
    hide Top, Ids, Without, InOrder, HighestScore, HighestThenFastest, SameOrder, Placed, InTurn;
    OrdersMean(rows);
    SameOrderOnPart(InOrder(ScoreOnly, rows), HighestScore(rows), worth, rows.Keys);
    SameOrderOnPart(InOrder(ServiceQueue, rows), HighestThenFastest(rows), old', rows.Keys);
    TopIsTaken(rows, worth, ScoreOnly, HighestScore(rows), budget);
    TopIsTaken(rows, old', ServiceQueue, HighestThenFastest(rows), budget - |newly|);
    IdsAt(newly);
    IdsAt(stale);
    IdsAt(unseen);
    WithoutMeans(Ids(stale), ToSet(Ids(newly)));
  }

  lemma FoundOnce(rows: Table, worth: set<nat>, old': set<nat>, budget: int,
                  newly: seq<Snapshot>, stale: seq<Snapshot>, unseen: seq<Snapshot>)
    requires FoundByQueries(rows, worth, old', budget, newly, stale, unseen)
    ensures Distinct(Ids(newly + unseen)) && Ids(newly + unseen) == Ids(newly) + Without(Ids(stale), ToSet(Ids(newly)))
  {
    hide Top, Ids, Without, Distinct;
    IdsConcat(newly, unseen);
    TopIsPart(rows, worth, ScoreOnly, budget);
    TopIsPart(rows, old', ServiceQueue, budget - |newly|);
    WithoutMeans(Ids(stale), ToSet(Ids(newly)));
    DistinctConcat(Ids(newly), Ids(unseen));
  }

  lemma FoundWhere(rows: Table, worth: set<nat>, old': set<nat>, budget: int,
                   newly: seq<Snapshot>, stale: seq<Snapshot>, unseen: seq<Snapshot>, k: nat)
    requires FoundByQueries(rows, worth, old', budget, newly, stale, unseen) && k < |newly + unseen|
    ensures var s := (newly + unseen)[k]; s.id in rows && rows[s.id] == s.row && (s.id in worth || s.id in old')
  {
    hide Top, Ids, Without;
    SelectedFrom(rows, worth, ScoreOnly, budget, newly);
    SelectedFrom(rows, old', ServiceQueue, budget - |newly|, stale);
    if k >= |newly| {
      assert unseen[k - |newly|] in stale;
    }
  }

  /** What the two queries and the filter leave is the selection. */
  lemma Selected(rows: Table, queued: set<nat>, cfg: CycleConfig, input: CycleInput,
                 newly: seq<Snapshot>, stale: seq<Snapshot>, unseen: seq<Snapshot>)
    requires var old' := StaleVerdicts(rows, cfg.serviceMinScore, Ago(input.serviceSelectAt, cfg.serviceRecheckMinutes));
             FoundByQueries(rows, NewlyPassed(rows, queued, cfg.serviceMinScore), old', cfg.serviceBudget, newly, stale, unseen)
    ensures var chosen := Slice(newly + unseen, 0, cfg.serviceBudget);
            && Current(rows, chosen) && |chosen| <= cfg.serviceBudget && Distinct(Ids(chosen))
            && IsSelection(rows, queued, cfg, input, Ids(chosen))
            && forall k | 0 <= k < |chosen| :: ServiceDue(rows, queued, chosen[k].id, cfg, input)
  {
    hide Ids, Distinct, Without, FoundByQueries, TakenFirst, StaleVerdicts, WorthChecking, ToSet;
    var worth := NewlyPassed(rows, queued, cfg.serviceMinScore);
    var old' := StaleVerdicts(rows, cfg.serviceMinScore, Ago(input.serviceSelectAt, cfg.serviceRecheckMinutes));
    FoundInTurn(rows, worth, old', cfg.serviceBudget, newly, stale, unseen);
    FoundOnce(rows, worth, old', cfg.serviceBudget, newly, stale, unseen);
    var chosen := Slice(newly + unseen, 0, cfg.serviceBudget);
    assert chosen == newly + unseen;
    forall k | 0 <= k < |chosen| ensures chosen[k].id in rows && rows[chosen[k].id] == chosen[k].row
      && ServiceDue(rows, queued, chosen[k].id, cfg, input)
    {
      FoundWhere(rows, worth, old', cfg.serviceBudget, newly, stale, unseen, k);
    }
  }

  lemma {:induction false} NothingPlanned(verdicts: seq<ServiceResult>, now: int, c: PoolConfig)
    ensures ServicePlan(ById([]), verdicts, now, c) == []
  {
    if verdicts != [] {
      NothingPlanned(verdicts[..|verdicts| - 1], now, c);
    }
  }

  /** The last verdict about the row is a pass. */
  ghost predicate Vouched(verdicts: seq<ServiceResult>, id: nat) {
    verdicts != []
    && var last := verdicts[|verdicts| - 1];
       if last.id == id then last.status.Passed? else Vouched(verdicts[..|verdicts| - 1], id)
  }

  /**
   * What verdicts do to statuses: a row that was looked at and is vouched for in the end becomes active, be it
   * claimed or not; every other row keeps its status.
   */
  lemma {:induction false} VerdictsDecide(table: Table, byId: map<nat, Row>, verdicts: seq<ServiceResult>, now: int, c: PoolConfig, id: nat)
    requires id in table && forall x | x in byId :: x in table && byId[x] == table[x]
    ensures var after := ApplyService(table, ServicePlan(byId, verdicts, now, c));
            id in after && after[id].status == if id in byId && Vouched(verdicts, id) then Active else table[id].status
  {
    hide PlanServiceOne, ApplyService;
    if verdicts == [] {
      ApplyNothing(table);
    } else {
      var last, front := verdicts[|verdicts| - 1], verdicts[..|verdicts| - 1];
      VerdictsDecide(table, byId, front, now, c, id);
      if last.id in byId {
        var o := PlanServiceOne(byId[last.id], last, now, c);
        ApplyServiceConcat(table, ServicePlan(byId, front, now, c), [o]);
        ServiceKeepsCounters(table, ServicePlan(byId, front, now, c));
        PlannedNext(byId[last.id], last, now, c);
        ApplyOne(ApplyService(table, ServicePlan(byId, front, now, c)), o);
      }
    }
  }

  lemma PlannedNext(row: Row, r: ServiceResult, now: int, c: PoolConfig)
    ensures var o := PlanServiceOne(row, r, now, c); o.id == r.id && o.next == if r.status.Passed? then Active else row.status
  {
    hide ScoreProxy, CombineScores;
  }

  lemma {:induction false} VerdictsOnCandidates(byId: map<nat, Row>, verdicts: seq<ServiceResult>, now: int, c: PoolConfig)
    ensures forall o <- ServicePlan(byId, verdicts, now, c) :: o.id in byId
  {
    hide PlanServiceOne;
    if verdicts != [] {
      var last := verdicts[|verdicts| - 1];
      VerdictsOnCandidates(byId, verdicts[..|verdicts| - 1], now, c);
      if last.id in byId {
        PlannedNext(byId[last.id], last, now, c);
      }
    }
  }

  /** Rows that are neither queued nor active. */
  ghost predicate OutOfReach(rows: Table, queued: set<nat>, id: nat) { id in rows && id !in queued && !rows[id].status.Active? }

  /**
   * Writes the verdicts on the selected rows; no pool member is evicted, and wherever the stage stops, rows that are
   * neither queued nor active are as they were.
   */
  method ServiceStage(pool: PoolManager, queued: set<nat>, cfg: CycleConfig, input: CycleInput)
    returns (fate: Fate, ghost candidates: seq<Snapshot>)
    requires pool.proxies.Valid() && cfg.serviceBudget > 0
    modifies pool.proxies
    ensures pool.proxies.Valid()
    ensures pool.proxies.log == old(pool.proxies.log)
    ensures fate == Done ==> old(ActiveIds(pool.proxies.rows)) <= ActiveIds(pool.proxies.rows)
    ensures |candidates| <= cfg.serviceBudget && Current(old(pool.proxies.rows), candidates)
    ensures forall k | 0 <= k < |candidates| :: ServiceDue(old(pool.proxies.rows), queued, candidates[k].id, cfg, input)
    ensures fate == Done ==> IsSelection(old(pool.proxies.rows), queued, cfg, input, Ids(candidates))
    ensures fate == Done ==>
              pool.proxies.rows
              == ApplyService(old(pool.proxies.rows), ServicePlan(ById(candidates), input.verdicts, input.servicePlanAt, pool.config))
    ensures forall id | OutOfReach(old(pool.proxies.rows), queued, id) ::
              id in pool.proxies.rows && pool.proxies.rows[id] == old(pool.proxies.rows)[id]
  {
    hide ApplyService, ServicePlan, Faithful, UniqueKeys, ActiveIds, ServiceDue, IsSelection;
    var proxies := pool.proxies;
    candidates := [];
    ghost var table := proxies.rows;
    fate := proxies.Attempt();
    if fate != Done { return; }
    var chosen := SelectCandidates(proxies, queued, cfg, input);
    candidates := chosen;
    NothingPlanned(input.verdicts, input.servicePlanAt, pool.config);
    ApplyNothing(table);
    if |chosen| > 0 {
      var planned := pool.PlanService(chosen, input.verdicts, input.servicePlanAt, proxies.rows);
      ServiceStageKeepsMembers(proxies.rows, planned);
      VerdictsOnCandidates(ById(chosen), input.verdicts, input.servicePlanAt, pool.config);
      ghost var written;
      fate, written := proxies.PersistServiceOutcomes(planned);
      ChosenAreDue(table, queued, chosen, cfg, input);
    }
  }

  lemma ChosenAreDue(table: Table, queued: set<nat>, chosen: seq<Snapshot>, cfg: CycleConfig, input: CycleInput)
    requires Current(table, chosen)
    requires forall k | 0 <= k < |chosen| :: ServiceDue(table, queued, chosen[k].id, cfg, input)
    ensures forall id | id in ById(chosen) :: ServiceDue(table, queued, id, cfg, input) && !OutOfReach(table, queued, id)
  {
    IndexIsCurrent(table, chosen);
    IdsAt(chosen);
    forall id | id in ById(chosen) ensures ServiceDue(table, queued, id, cfg, input) {
      var k :| 0 <= k < |chosen| && Ids(chosen)[k] == id;
      assert ServiceDue(table, queued, chosen[k].id, cfg, input);
    }
  }

  // ------------------------------------------------------------------ one cycle

  ghost function QueueQuery(cfg: CycleConfig, input: CycleInput): QueueOptions {
    QueueOptions(cfg.newLimit, cfg.quarantineLimit, cfg.recheckLimit, cfg.recheckAfterMinutes, input.selectAt)
  }

  /**
   * What a cycle went through: the table after the upsert, the rows it queued as they then stood, the table after the
   * validation stage, the rows its service stage looked at, and the table the sweeps found.
   */
  datatype Passage = Passage(upserted: Table, queue: seq<Snapshot>, validated: Table, checked: set<nat>, reached: Table)

  /** Where the stages leave a queued row: vouched for it is active, else it has the status validation left it with. */
  ghost predicate QueuedEnds(validated: Table, rows: Table, s: Snapshot, checked: set<nat>, cfg: CycleConfig, input: CycleInput, c: PoolConfig) {
    && ClaimedOrAnswered(validated, s, input, c) && s.id in rows
    && (if s.id in checked && Vouched(input.verdicts, s.id) then rows[s.id].status.Active?
        else rows[s.id].status == validated[s.id].status)
    && (s.id in checked && Unanswered(input.replies, s.id) ==> WorthChecking(s.row, cfg.serviceMinScore))
  }

  /**
   * Where a queued row is when the sweeps start, by its latest answer and the score validation gave it: in the pool
   * after a pass with a sufficient score, benched after any other pass unless a verdict vouches for it.
   */
  ghost predicate PassDecides(p: Passage, s: Snapshot, o: Reply, input: CycleInput, c: PoolConfig) {
    IsLatest(input.replies, o) && o.id == s.id && o.reachable ==>
      && s.id in p.validated && s.id in p.reached
      && (p.validated[s.id].score >= c.minScore ==> p.reached[s.id].status.Active?)
      && (p.validated[s.id].score < c.minScore ==>
            if s.id in p.checked && Vouched(input.verdicts, s.id) then p.reached[s.id].status.Active?
            else p.reached[s.id].status.Quarantined?)
  }

  lemma LatestIsOne(delivered: seq<Reply>, a: Reply, b: Reply)
    requires IsLatest(delivered, a) && IsLatest(delivered, b) && a.id == b.id
    ensures a == b
  {
    var i :| 0 <= i < |delivered| && delivered[i] == a && forall j | i < j < |delivered| :: delivered[j].id != a.id;
    var k :| 0 <= k < |delivered| && delivered[k] == b && forall j | k < j < |delivered| :: delivered[j].id != b.id;
    assert i == k;
  }

  lemma LatestWasDelivered(delivered: seq<Reply>, o: Reply)
    requires IsLatest(delivered, o)
    ensures o in delivered && !Unanswered(delivered, o.id)
  {
  }

  lemma PassesDecide(start: Table, p: Passage, cfg: CycleConfig, input: CycleInput, c: PoolConfig)
    requires WentThrough(start, p, cfg, input, c)
    ensures forall s, o | s in p.queue :: PassDecides(p, s, o, input, c)
  {
    hide Upserted, FirstByKey, QueueIds, Ids, Vouched, WorthChecking, ScoreOfRow, Unanswered, IsLatest, LookedAt;
    forall s, o | s in p.queue ensures PassDecides(p, s, o, input, c) {
      if IsLatest(input.replies, o) && o.id == s.id && o.reachable {
        assert QueuedEnds(p.validated, p.reached, s, p.checked, cfg, input, c);
        LatestWasDelivered(input.replies, o);
        var shown :| IsLatest(input.replies, shown) && shown.id == s.id
          && ShowsAnswer(s.row, p.validated[s.id], shown, input.planAt, input.trust, c);
        LatestIsOne(input.replies, o, shown);
      }
    }
  }

  /** The service stage looks at its selection, or at nothing without a budget. */
  ghost predicate LookedAt(validated: Table, queued: set<nat>, cfg: CycleConfig, input: CycleInput, checked: set<nat>) {
    if cfg.serviceBudget <= 0 then checked == {}
    else exists chosen: seq<nat> :: IsSelection(validated, queued, cfg, input, chosen) && checked == ToSet(chosen)
  }

  /** The stages of a cycle that began at `start` were gone through as `p` says. */
  ghost predicate WentThrough(start: Table, p: Passage, cfg: CycleConfig, input: CycleInput, c: PoolConfig) {
    && Upserted(start, p.upserted, FirstByKey(input.candidates), input.cycle, input.upsertAt)
    && Current(p.upserted, p.queue) && Ids(p.queue) == Slice(QueueIds(p.upserted, QueueQuery(cfg, input)), 0, cfg.maxPerCycle)
    && StillPending(start, p.reached)
    && LookedAt(p.validated, ToSet(Ids(p.queue)), cfg, input, p.checked)
    && forall s <- p.queue :: QueuedEnds(p.validated, p.reached, s, p.checked, cfg, input, c)
  }

  lemma BeginningIds(all: seq<Snapshot>, n: nat)
    ensures Ids(Slice(all, 0, n)) == Slice(Ids(all), 0, n)
  {
    var part := Slice(all, 0, n);
    IdsAt(all);
    IdsAt(part);
    assert forall k | 0 <= k < |part| :: part[k] == all[k];
  }

  /** Claims of others are never queued, so the service stage does not reach them. */
  lemma ClaimsOutOfReach(start: Table, upserted: Table, validated: Table, after: Table, queue: seq<Snapshot>)
    requires StillPending(start, upserted) && StillPending(upserted, validated)
    requires Current(upserted, queue) && forall s <- queue :: Claimable(s.row)
    requires forall id | OutOfReach(validated, ToSet(Ids(queue)), id) :: id in after && after[id] == validated[id]
    ensures StillPending(start, after)
  {
    forall id | id in start && start[id].status.Pending? ensures id in after && after[id].status.Pending? {
      QueuedIsClaimable(upserted, queue, id);
      assert OutOfReach(validated, ToSet(Ids(queue)), id);
    }
  }

  lemma QueuedAfterVerdicts(validated: Table, queued: set<nat>, candidates: seq<Snapshot>, s: Snapshot, cfg: CycleConfig,
                            input: CycleInput, c: PoolConfig)
    requires ClaimedOrAnswered(validated, s, input, c) && Current(validated, candidates)
    requires forall k | 0 <= k < |candidates| :: ServiceDue(validated, queued, candidates[k].id, cfg, input)
    ensures var after := ApplyService(validated, ServicePlan(ById(candidates), input.verdicts, input.servicePlanAt, c));
            QueuedEnds(validated, after, s, ById(candidates).Keys, cfg, input, c)
  {
    hide ApplyService, ServicePlan, Unanswered, Vouched, ShowsLatest;
    IndexIsCurrent(validated, candidates);
    VerdictsDecide(validated, ById(candidates), input.verdicts, input.servicePlanAt, c, s.id);
    ChosenAreDue(validated, queued, candidates, cfg, input);
  }

  lemma QueuedWithoutVerdicts(validated: Table, s: Snapshot, cfg: CycleConfig, input: CycleInput, c: PoolConfig)
    requires ClaimedOrAnswered(validated, s, input, c)
    ensures QueuedEnds(validated, validated, s, {}, cfg, input, c)
  {
  }

  /** The stages before the sweeps, in order; any of them may stop the cycle. No claim that was there is released by them. */
  method Stages(pool: PoolManager, cfg: CycleConfig, input: CycleInput) returns (fate: Fate, ghost p: Passage)
    requires pool.proxies.Valid()
    modifies pool.proxies
    ensures pool.proxies.Valid()
    ensures LogsKept(old(pool.proxies.State()), pool.proxies.State(), input.planAt)
    ensures StillPending(old(pool.proxies.rows), pool.proxies.rows)
    ensures fate == Done ==> p.reached == pool.proxies.rows && WentThrough(old(pool.proxies.rows), p, cfg, input, pool.config)
    ensures fate == Done ==> forall s, o | s in p.queue :: PassDecides(p, s, o, input, pool.config)
  {
    hide Faithful, UniqueKeys, Upserted, ActiveIds, FirstByKey, Claim, Recorded, Plan, ApplyService, ServicePlan, ServiceDue;
    hide IsLatest, LogsKept, StillPending, QueueIds, LookedAt, IsQueue, QueuedEnds, ClaimedOrAnswered, OutOfReach, Ids, ById, Slice, PassDecides;
    var proxies := pool.proxies;
    ghost var start := proxies.State();
    p := Passage(map[], [], map[], {}, map[]);
    var total, inserted: nat;
    ghost var written;
    total, inserted, fate, written := proxies.UpsertCandidates(input.candidates, input.cycle, input.upsertAt);
    ghost var upserted := proxies.State();
    ghost var done := Flatten(Chunks(FirstByKey(input.candidates), WRITE_CHUNK)[..written]);
    UpsertKeepsClaims(start.rows, upserted.rows, done, input.cycle, input.upsertAt);
    ExtendedKeepsLogs(start, upserted, input.planAt);
    if fate != Done { return; }
    var queue: seq<Snapshot>;
    var limits := QueueOptions(cfg.newLimit, cfg.quarantineLimit, cfg.recheckLimit, cfg.recheckAfterMinutes, input.selectAt);
    queue, fate := proxies.SelectValidationQueue(limits);
    if fate != Done { return; }
    var rows := Slice(queue, 0, cfg.maxPerCycle);
    SliceIsPart(upserted.rows, queue, cfg.maxPerCycle);
    BeginningIds(queue, cfg.maxPerCycle);
    fate := ValidateQueue(pool, rows, input);
    ghost var validated := proxies.State();
    LogsKeptOn(start, upserted, validated, input.planAt);
    StillPendingOn(start.rows, upserted.rows, validated.rows);
    if fate != Done { return; }
    ghost var checked;
    fate, checked := CheckService(pool, rows, cfg, input);
    ClaimsOutOfReach(start.rows, upserted.rows, validated.rows, proxies.rows, rows);
    SameLogsKept(validated, proxies.State(), input.planAt);
    LogsKeptOn(start, validated, proxies.State(), input.planAt);
    p := Passage(upserted.rows, rows, validated.rows, checked, proxies.rows);
    if fate == Done {
      PassesDecide(start.rows, p, cfg, input, pool.config);
    }
  }

  lemma StillPendingOn(a: Table, b: Table, c: Table)
    requires StillPending(a, b) && StillPending(b, c)
    ensures StillPending(a, c)
  {
  }

  lemma SliceIsPart(rows: Table, queue: seq<Snapshot>, n: nat)
    requires Current(rows, queue) && forall s <- queue :: Claimable(s.row)
    ensures Current(rows, Slice(queue, 0, n)) && forall s <- Slice(queue, 0, n) :: Claimable(s.row)
  {
    assert forall s <- Slice(queue, 0, n) :: s in queue;
  }

  /** The validation stage, skipped when nothing is queued. */
  method ValidateQueue(pool: PoolManager, rows: seq<Snapshot>, input: CycleInput) returns (fate: Fate)
    requires pool.proxies.Valid()
    requires Current(pool.proxies.rows, rows) && forall s <- rows :: Claimable(s.row)
    modifies pool.proxies
    ensures pool.proxies.Valid()
    ensures LogsKept(old(pool.proxies.State()), pool.proxies.State(), input.planAt)
    ensures StillPending(old(pool.proxies.rows), pool.proxies.rows)
    ensures fate == Done ==> forall s <- rows :: ClaimedOrAnswered(pool.proxies.rows, s, input, pool.config)
  {
    hide Faithful, UniqueKeys, LogsKept, ClaimedOrAnswered, Recorded, Plan, Claim, IsLatest;
    fate := Done;
    SameLogsKept(pool.proxies.State(), pool.proxies.State(), input.planAt);
    if |rows| > 0 {
      ghost var outcomes;
      fate, outcomes := ValidationStage(pool, rows, input);
    }
  }

  /** The service stage, skipped without a budget. */
  method CheckService(pool: PoolManager, rows: seq<Snapshot>, cfg: CycleConfig, input: CycleInput)
    returns (fate: Fate, ghost checked: set<nat>)
    requires pool.proxies.Valid()
    requires forall s <- rows :: ClaimedOrAnswered(pool.proxies.rows, s, input, pool.config)
    modifies pool.proxies
    ensures pool.proxies.Valid() && pool.proxies.log == old(pool.proxies.log)
    ensures forall id | OutOfReach(old(pool.proxies.rows), ToSet(Ids(rows)), id) ::
              id in pool.proxies.rows && pool.proxies.rows[id] == old(pool.proxies.rows)[id]
    ensures fate == Done ==> LookedAt(old(pool.proxies.rows), ToSet(Ids(rows)), cfg, input, checked)
    ensures fate == Done ==> forall s <- rows :: QueuedEnds(old(pool.proxies.rows), pool.proxies.rows, s, checked, cfg, input, pool.config)
  {
    hide Faithful, UniqueKeys, QueuedEnds, ClaimedOrAnswered, ApplyService, ServicePlan, ServiceDue, ActiveIds, Ids, ById, IsSelection;
    fate, checked := Done, {};
    ghost var table := pool.proxies.rows;
    if cfg.serviceBudget > 0 {
      ghost var candidates;
      fate, candidates := ServiceStage(pool, ToSet(Ids(rows)), cfg, input);
      checked := ById(candidates).Keys;
      if fate == Done {
        IndexIsCurrent(table, candidates);
        forall s <- rows ensures QueuedEnds(table, pool.proxies.rows, s, checked, cfg, input, pool.config) {
          QueuedAfterVerdicts(table, ToSet(Ids(rows)), candidates, s, cfg, input, pool.config);
        }
      }
    } else {
      forall s <- rows ensures QueuedEnds(table, pool.proxies.rows, s, checked, cfg, input, pool.config) {
        QueuedWithoutVerdicts(table, s, cfg, input, pool.config);
      }
    }
  }

  // ------------------------------------------------------------------ the sweeps and retention

  lemma PruningKeepsSettled(rows: Table, rows': Table, c: PoolConfig, now: int)
    requires Settled(rows, c, now)
    requires rows'.Keys <= rows.Keys && forall id | id in rows' :: rows'[id] == rows[id]
    requires forall id | id in rows && !rows[id].status.Dead? :: id in rows'
    ensures Settled(rows', c, now) && ActiveIds(rows') == ActiveIds(rows)
  {
    assert ActiveIds(rows') == ActiveIds(rows);
    assert Matching(rows', IsPending()) <= Matching(rows, IsPending());
  }

  /** The table is `before` without some of its dead rows. */
  ghost predicate SomeDeadForgotten(before: Table, after: Table) {
    && (forall id | id in after :: id in before && after[id] == before[id])
    && (forall id | id in before && !before[id].status.Dead? :: id in after)
  }

  /** No log of a row that is kept has changed. */
  lemma RestrictedLogs(before: History, after: History, t: int)
    requires forall id | id in after :: id in before && after[id] == before[id]
    ensures Timely(before, t) ==> Timely(after, t)
  {
  }

  /** The end of a cycle: the sweeps, and retention when it is due. */
  method Sweeps(pool: PoolManager, input: CycleInput) returns (fate: Fate, poolSize: nat)
    requires pool.proxies.Valid()
    modifies pool.proxies
    ensures pool.proxies.Valid()
    ensures HistoryKept(old(pool.proxies.State()), pool.proxies.State())
    ensures forall t | Timely(old(pool.proxies.log), t) :: Timely(pool.proxies.log, t)
    ensures fate == Done ==> Settled(pool.proxies.rows, pool.config, input.finalizeAt)
    ensures fate == Done ==> poolSize == |ActiveIds(pool.proxies.rows)|
    ensures fate == Done ==>
              SomeDeadForgotten(AfterSweeps(old(pool.proxies.rows), pool.config, input.cycle, input.finalizeAt), pool.proxies.rows)
  {
    hide Faithful, UniqueKeys, Settled, BestHealthyKept, ActiveIds, AfterSweeps, Timely;
    var proxies := pool.proxies;
    var expired, quarantined, demoted, released: nat;
    expired, quarantined, demoted, released, poolSize, fate := pool.Finalize(input.cycle, input.finalizeAt);
    if fate == Done && input.pruneDue {
      ghost var settled := proxies.State();
      fate := proxies.PruneHistory(input.pruneSeenBefore);
      forall t | Timely(settled.log, t) ensures Timely(proxies.log, t) {
        RestrictedLogs(settled.log, proxies.log, t);
      }
      PruningKeepsSettled(settled.rows, proxies.rows, pool.config, input.finalizeAt);
    }
  }

  // ------------------------------------------------------------------ claims over whole cycles

  /** A claim the sweeps find is gone after them: its row is new, and retention keeps it. */
  lemma ClaimsAreReleased(reached: Table, rows: Table, c: PoolConfig, cycle: string, now: int)
    requires SomeDeadForgotten(AfterSweeps(reached, c, cycle, now), rows)
    ensures forall id | id in reached && reached[id].status.Pending? :: id in rows && rows[id].status.New?
  {
    hide AfterSweeps;
    ClaimsEndAsNew(reached, c, cycle, now);
  }

  /** A queued row nobody answered about is new again after the cycle, unless a verdict vouched for it. */
  ghost predicate UnansweredEnds(rows: Table, s: Snapshot, cfg: CycleConfig, input: CycleInput) {
    Unanswered(input.replies, s.id) ==>
      || (s.id in rows && rows[s.id].status.New?)
      || (Vouched(input.verdicts, s.id) && WorthChecking(s.row, cfg.serviceMinScore))
  }

  lemma UnansweredIsReleased(rows: Table, start: Table, p: Passage, cfg: CycleConfig, input: CycleInput, c: PoolConfig)
    requires WentThrough(start, p, cfg, input, c)
    requires forall id | id in p.reached && p.reached[id].status.Pending? :: id in rows && rows[id].status.New?
    ensures forall id | id in start && start[id].status.Pending? :: id in rows && rows[id].status.New?
    ensures forall s <- p.queue :: UnansweredEnds(rows, s, cfg, input)
  {
    hide Upserted, FirstByKey, QueueIds, Ids, ShowsLatest, Vouched, WorthChecking, LookedAt;
    forall s <- p.queue ensures UnansweredEnds(rows, s, cfg, input) {
      assert QueuedEnds(p.validated, p.reached, s, p.checked, cfg, input, c);
    }
  }

  /**
   * A claim that an abandoned cycle left behind, in a sound table: to the next cycle it is a foreign claim, every
   * stage of that cycle leaves it, and only the sweeps at its end release it.
   */
  lemma ForeignClaimWaits(candidate: Candidate, now: int)
    ensures var rows := Claim(map[1 := NewRow(candidate, "a", now)], {1}, "a");
            && Faithful(Db(rows, map[1 := []])) && UniqueKeys(rows)
            && 1 in Matching(rows, ClaimedElsewhere("b"))
            && (forall reached: Table | StillPending(rows, reached) :: 1 in reached && reached[1].status.Pending?)
            && (forall reached: Table, c, at | StillPending(rows, reached) ::
                  1 in AfterSweeps(reached, c, "b", at) && AfterSweeps(reached, c, "b", at)[1].status.New?)
  {
    hide AfterSweeps;
    var rows := Claim(map[1 := NewRow(candidate, "a", now)], {1}, "a");
    assert rows[1].status.Pending?;
    forall reached: Table, c, at | StillPending(rows, reached)
      ensures 1 in AfterSweeps(reached, c, "b", at) && AfterSweeps(reached, c, "b", at)[1].status.New?
    {
      ClaimsEndAsNew(reached, c, "b", at);
    }
  }

  lemma NoClaimLeft(rows: Table, cycle: string)
    ensures Matching(UpdateWhere(rows, ClaimedBy(cycle), Release()), ClaimedBy(cycle)) == {}
  {
    var after := UpdateWhere(rows, ClaimedBy(cycle), Release());
    forall id | id in after ensures !ClaimedBy(cycle)(after[id]) {
    }
  }

  /**
   * One refresh cycle. A failed one releases its own claims, as far as it still can; a dead one does nothing more.
   * A completed one has gone through its stages, and what it leaves is what the sweeps make of the table they found.
   */
  method RunCycle(pool: PoolManager, cfg: CycleConfig, input: CycleInput) returns (result: CycleResult, ghost p: Passage)
    requires pool.proxies.Valid()
    modifies pool.proxies
    ensures pool.proxies.Valid()
    ensures HistoryKept(old(pool.proxies.State()), pool.proxies.State())
    ensures Timely(old(pool.proxies.log), input.planAt) ==> Timely(pool.proxies.log, input.planAt)
    ensures result.Completed? ==> Settled(pool.proxies.rows, pool.config, input.finalizeAt)
    ensures result.Completed? ==> result.poolSize == |ActiveIds(pool.proxies.rows)|
    ensures result.Completed? ==> WentThrough(old(pool.proxies.rows), p, cfg, input, pool.config)
    ensures result.Completed? ==>
              SomeDeadForgotten(AfterSweeps(p.reached, pool.config, input.cycle, input.finalizeAt), pool.proxies.rows)
    ensures result.Completed? ==>
              forall id | id in old(pool.proxies.rows) && old(pool.proxies.rows)[id].status.Pending? ::
                id in pool.proxies.rows && pool.proxies.rows[id].status.New?
    ensures result.Completed? ==> forall s, o | s in p.queue :: PassDecides(p, s, o, input, pool.config)
    ensures result.Completed? ==> forall s <- p.queue :: UnansweredEnds(pool.proxies.rows, s, cfg, input)
    ensures result == CycleResult.Failed(true) ==> Matching(pool.proxies.rows, ClaimedBy(input.cycle)) == {}
  {
    hide Faithful, UniqueKeys, Settled, ActiveIds, AfterSweeps, Timely, StillPending, WentThrough, SomeDeadForgotten, UnansweredEnds;
    hide HistoryKept, PassDecides;
    var proxies := pool.proxies;
    ghost var start := proxies.State();
    var fate, poolSize := Done, 0;
    fate, p := Stages(pool, cfg, input);
    ghost var reached := proxies.State();
    KeptLogs(start, reached, input.planAt);
    if fate == Done {
      fate, poolSize := Sweeps(pool, input);
      HistoryChain(start, reached, proxies.State());
      if fate == Done {
        ClaimsAreReleased(reached.rows, proxies.rows, pool.config, input.cycle, input.finalizeAt);
        UnansweredIsReleased(proxies.rows, start.rows, p, cfg, input, pool.config);
        return Completed(poolSize), p;
      }
    }
    if fate == Crashed {
      return Died, p;
    }
    var released: nat;
    ghost var before, stopped := proxies.rows, proxies.State();
    released, fate := proxies.ReleaseOrphanedPending(input.cycle);
    NoClaimLeft(before, input.cycle);
    SameLogKept(start, stopped, proxies.State());
    return (if fate == Crashed then Died else CycleResult.Failed(fate == Done)), p;
  }

  lemma KeptLogs(a: Db, b: Db, t: int)
    requires LogsKept(a, b, t)
    ensures HistoryKept(a, b) && a.log.Keys <= b.log.Keys && (Timely(a.log, t) ==> Timely(b.log, t))
  {
  }

  /** Each cycle plans no earlier than the one before it. */
  ghost predicate PlanTimesAscend(history: seq<CycleInput>, last: CycleInput) {
    && (forall i, j | 0 <= i < j < |history| :: history[i].planAt <= history[j].planAt)
    && (forall i | 0 <= i < |history| :: history[i].planAt <= last.planAt)
  }

  ghost function NextPlanAt(history: seq<CycleInput>, last: CycleInput, i: nat): int {
    if i < |history| then history[i].planAt else last.planAt
  }

  /**
   * Any number of completed, failed and dead cycles, from an empty table, followed by one more: the table is faithful
   * throughout, and if the last cycle completes, the pool is settled, each member proven by its log, and a read at
   * that time finds exactly the reported number of entries. If the clock did not step back between the plans, every
   * log is in the order of its times and every row holds the time of its latest pass.
   */
  method Operate(config: PoolConfig, cfg: CycleConfig, history: seq<CycleInput>, last: CycleInput, q: PoolQuery)
    returns (pool: PoolManager, result: CycleResult, found: nat)
    requires Unfiltered(q) && q.ttlMinutes == config.ttlMinutes && q.now == last.finalizeAt
    ensures fresh(pool) && fresh(pool.proxies) && pool.proxies.Valid()
    ensures result.Completed? ==> Settled(pool.proxies.rows, config, last.finalizeAt)
    ensures result.Completed? ==>
              forall id | id in ActiveIds(pool.proxies.rows) ::
                exists k :: ProvenBy(pool.proxies.log[id], k, config, last.finalizeAt)
    ensures result.Completed? ==> found == result.poolSize
    ensures PlanTimesAscend(history, last) ==>
              && Timely(pool.proxies.log, last.planAt)
              && forall id | id in pool.proxies.rows :: IsLatestPass(pool.proxies.rows[id].lastPassed, pool.proxies.log[id])
  {
    hide Timely, Settled, ActiveIds, WentThrough, AfterSweeps, SomeDeadForgotten, UnansweredEnds, IsLatestPass, ProvenBy;
    var proxies := new ProxiesRepository();
    pool := new PoolManager(proxies, config);
    EmptyIsTimely(proxies.log, NextPlanAt(history, last, 0));
    for i := 0 to |history|
      invariant proxies.Valid()
      invariant PlanTimesAscend(history, last) ==> Timely(proxies.log, NextPlanAt(history, last, i))
    {
      var earlier: CycleResult;
      ghost var passage;
      earlier, passage := RunCycle(pool, cfg, history[i]);
      if PlanTimesAscend(history, last) {
        TimelyLater(proxies.log, history[i].planAt, NextPlanAt(history, last, i + 1));
      }
    }
    ghost var passage;
    result, passage := RunCycle(pool, cfg, last);
    var entries: seq<nat>;
    entries, found := proxies.ReadPool(q);
    if result.Completed? {
      MembersAreProven(proxies.State(), config, last.finalizeAt);
      SettledPoolIsReadable(proxies.rows, config, q);
    }
    if PlanTimesAscend(history, last) {
      RowsHoldLatestPass(proxies.State(), last.planAt);
    }
  }

  lemma EmptyIsTimely(log: History, t: int)
    requires log == map[]
    ensures Timely(log, t)
  {
  }
}
