/** What the repository's statements select and write, as functions of the table. */
module RepositoryRules {
  import opened Common
  import opened Scoring
  import opened PoolTable
  import opened Listing
  import opened Ranking

  const UPSERT_CHUNK: nat := 400
  const WRITE_CHUNK: nat := 200

  /** How a call to the database ended. */
  datatype Fate = Done | Threw | Crashed

  /** A discovered endpoint with the hash that identifies it. */
  datatype Candidate = Candidate(key: string, anonymity: Anonymity)

  datatype Snapshot = Snapshot(id: nat, row: Row)

  datatype ServiceOutcome = ServiceOutcome(id: nat, at: int, status: ServiceStatus, score: Score, next: Status)

  datatype ServiceFilter = Required | Preferred | Off

  /** `columns` says which rows pass the protocol and country filters, if the query has any. */
  datatype PoolQuery = PoolQuery(
    limit: nat,
    offset: nat,
    minScore: int,
    maxLatency: Option<int>,
    service: ServiceFilter,
    columns: Option<nat -> bool>,
    ttlMinutes: int,
    now: int)

  ghost function Ago(now: int, minutes: int): int { now - minutes * 60_000 }

  // ------------------------------------------------------------------ WHERE clauses and SET lists

  ghost predicate OlderThan(t: Option<int>, cutoff: int) { t.None? || t.value < cutoff }

  ghost function IsActive(): Row -> bool { (r: Row) => r.status.Active? }

  ghost function IsPending(): Row -> bool { (r: Row) => r.status.Pending? }

  ghost function IsStale(cutoff: int): Row -> bool {
    (r: Row) => r.status.Active? && OlderThan(r.lastPassed, cutoff)
  }

  ghost function Expire(): Row -> Row { (r: Row) => r.(status := Dead, validation := Unreachable) }

  ghost function KeepsFailing(maxFailures: int): Row -> bool {
    (r: Row) => r.status.Active? && r.failures >= maxFailures
  }

  ghost function Quarantine(): Row -> Row { (r: Row) => r.(status := Quarantined) }

  ghost function ClaimedBy(cycle: string): Row -> bool {
    (r: Row) => r.status.Pending? && r.lastCycle == Some(cycle)
  }

  ghost function ClaimedElsewhere(cycle: string): Row -> bool {
    (r: Row) => r.status.Pending? && r.lastCycle != Some(cycle)
  }

  ghost function Release(): Row -> Row { (r: Row) => r.(status := New) }

  ghost predicate Claimable(r: Row) { r.status.New? || r.status.Quarantined? || r.status.Active? }

  ghost function Claim(rows: Table, ids: set<nat>, cycle: string): Table {
    map id | id in rows ::
      if id in ids && Claimable(rows[id]) then rows[id].(status := Pending, lastCycle := Some(cycle)) else rows[id]
  }

  ghost function ServiceUpdated(r: Row, o: ServiceOutcome): Row {
    r.(service := o.status, serviceChecked := Some(o.at), score := o.score, status := o.next)
  }

  ghost function ApplyService(rows: Table, os: seq<ServiceOutcome>): Table
    decreases |os|
  {
    if os == [] then rows
    else
      var o := os[0];
      ApplyService(if o.id in rows then rows[o.id := ServiceUpdated(rows[o.id], o)] else rows, os[1..])
  }

  /** Two ways to write one statement. */
  lemma SameStatement(rows: Table, who: Row -> bool, how: Row -> Row, who': Row -> bool, how': Row -> Row)
    requires forall r :: who(r) == who'(r) && (who(r) ==> how(r) == how'(r))
    ensures UpdateWhere(rows, who, how) == UpdateWhere(rows, who', how') && Matching(rows, who) == Matching(rows, who')
  {
  }

  lemma ExpiryMeans(rows: Table, cutoff: int)
    ensures UpdateWhere(rows, IsStale(cutoff), Expire())
            == map id | id in rows ::
                 var r := rows[id];
                 if r.status.Active? && (r.lastPassed.None? || r.lastPassed.value < cutoff)
                 then r.(status := Dead, validation := Unreachable) else r
  {
  }

  lemma QuarantineMeans(rows: Table, maxFailures: int)
    ensures UpdateWhere(rows, KeepsFailing(maxFailures), Quarantine())
            == map id | id in rows ::
                 var r := rows[id];
                 if r.status.Active? && r.failures >= maxFailures then r.(status := Quarantined) else r
  {
  }

  lemma ReleasesMean(rows: Table, cycle: string)
    ensures UpdateWhere(rows, ClaimedBy(cycle), Release())
            == map id | id in rows ::
                 var r := rows[id];
                 if r.status.Pending? && r.lastCycle == Some(cycle) then r.(status := New) else r
    ensures UpdateWhere(rows, ClaimedElsewhere(cycle), Release())
            == map id | id in rows ::
                 var r := rows[id];
                 if r.status.Pending? && r.lastCycle != Some(cycle) then r.(status := New) else r
  {
  }

  lemma OverflowMeans(rows: Table, maxActive: nat)
    ensures UpdateIds(rows, Overflow(rows, maxActive), Quarantine())
            == map id | id in rows :: if id in Overflow(rows, maxActive) then rows[id].(status := Quarantined) else rows[id]
  {
    hide Overflow;
  }

  lemma StatementOn(rows: Table, who: Row -> bool, how: Row -> Row, rows': Table, changed: set<nat>)
    requires rows' == map id | id in rows :: if who(rows[id]) then how(rows[id]) else rows[id]
    requires changed == set id | id in rows && who(rows[id])
    requires forall r :: CountersKept(r, how(r))
    ensures rows' == UpdateWhere(rows, who, how) && changed == Matching(rows, who)
    ensures rows'.Keys == rows.Keys && forall id | id in rows :: CountersKept(rows[id], rows'[id])
  {
  }

  lemma ApplyNothing(rows: Table)
    ensures ApplyService(rows, []) == rows
  {
  }

  /** A row without a verdict stays as it is. */
  lemma {:induction false} ApplyServiceOther(rows: Table, os: seq<ServiceOutcome>, id: nat)
    requires id in rows && forall o <- os :: o.id != id
    ensures id in ApplyService(rows, os) && ApplyService(rows, os)[id] == rows[id]
    decreases |os|
  {
    if os != [] {
      var o := os[0];
      assert o in os;
      ApplyServiceOther(if o.id in rows then rows[o.id := ServiceUpdated(rows[o.id], o)] else rows, os[1..], id);
    }
  }

  /** Outcome `k` is the last one about the row. */
  ghost predicate IsLastAbout(os: seq<ServiceOutcome>, k: nat, id: nat) {
    k < |os| && os[k].id == id && forall j | k < j < |os| :: os[j].id != id
  }

  /** A row shows the last verdict about it in its service columns, score and status, and is otherwise as it was. */
  lemma {:induction false} LastVerdictShows(rows: Table, os: seq<ServiceOutcome>, id: nat)
    requires id in rows
    ensures id in ApplyService(rows, os)
    ensures (exists o :: o in os && o.id == id) ==>
              exists k: nat :: IsLastAbout(os, k, id)
                && ApplyService(rows, os)[id]
                   == rows[id].(service := os[k].status, serviceChecked := Some(os[k].at), score := os[k].score, status := os[k].next)
    decreases |os|
  {
    if os != [] {
      hide ApplyService;
      var n := |os| - 1;
      var front, last := os[..n], os[n];
      assert os == front + [last];
      ApplyServiceConcat(rows, front, [last]);
      ServiceKeepsCounters(rows, front);
      ApplyOne(ApplyService(rows, front), last);
      if exists o :: o in front && o.id == id {
        LastVerdictShows(rows, front, id);
        var k: nat :| IsLastAbout(front, k, id)
          && ApplyService(rows, front)[id]
             == rows[id].(service := front[k].status, serviceChecked := Some(front[k].at), score := front[k].score, status := front[k].next);
        assert IsLastAbout(os, if last.id == id then n else k, id);
      } else {
        ApplyServiceOther(rows, front, id);
        if last.id == id {
          assert IsLastAbout(os, n, id);
        }
      }
    } else {
      ApplyNothing(rows);
    }
  }

  /** Same rows, same identities, same counters. */
  ghost predicate OnlyStatuses(rows: Table, rows': Table) {
    rows'.Keys == rows.Keys && forall id | id in rows :: CountersKept(rows[id], rows'[id])
  }

  lemma {:induction false} ServiceKeepsCounters(rows: Table, os: seq<ServiceOutcome>)
    ensures OnlyStatuses(rows, ApplyService(rows, os))
    decreases |os|
  {
    if os != [] {
      var o := os[0];
      var rows' := if o.id in rows then rows[o.id := ServiceUpdated(rows[o.id], o)] else rows;
      ServiceKeepsCounters(rows', os[1..]);
    }
  }

  lemma ApplyOne(rows: Table, o: ServiceOutcome)
    ensures ApplyService(rows, [o]) == if o.id in rows then rows[o.id := ServiceUpdated(rows[o.id], o)] else rows
  {
    assert [o][1..] == [];
  }

  lemma {:induction false} ApplyServiceConcat(rows: Table, a: seq<ServiceOutcome>, b: seq<ServiceOutcome>)
    ensures ApplyService(rows, a + b) == ApplyService(ApplyService(rows, a), b)
    decreases |a|
  {
    if a == [] {
      assert a + b == b;
    } else {
      var o := a[0];
      assert (a + b)[1..] == a[1..] + b;
      ApplyServiceConcat(if o.id in rows then rows[o.id := ServiceUpdated(rows[o.id], o)] else rows, a[1..], b);
    }
  }

  // ------------------------------------------------------------------ capacity

  ghost function ActiveIds(rows: Table): set<nat> { Matching(rows, IsActive()) }

  /** The members the capacity sweep puts out: the worst ones, just as many as exceed the cap. */
  ghost function Overflow(rows: Table, maxActive: nat): set<nat> {
    var active := ActiveIds(rows);
    RowsAreOrdered(WorstFirst, rows);
    if |active| <= maxActive then {}
    else ToSet(Slice(Listed(active, InOrder(WorstFirst, rows)), 0, |active| - maxActive))
  }

  /** Strictly lower in quality: by score, then by latency, an unknown latency being the worst. */
  ghost predicate RanksBelow(r: Row, s: Row) {
    r.score < s.score
    || (r.score == s.score && s.latency.Some? && (r.latency.None? || r.latency.value > s.latency.value))
  }

  /** Which of two members stays when one has to go: the higher ranking one, of equals the one with the higher id. */
  ghost predicate StaysOver(rows: Table, kept: nat, out: nat) {
    && kept in rows && out in rows
    && !RanksBelow(rows[kept], rows[out]) && (RanksBelow(rows[out], rows[kept]) || out < kept)
  }

  lemma DifferenceSize(all: set<nat>, part: set<nat>)
    requires part <= all
    ensures |all - part| == |all| - |part|
  {
  }

  lemma OverflowIsPart(rows: Table, maxActive: nat)
    ensures Overflow(rows, maxActive) <= ActiveIds(rows)
    ensures |Overflow(rows, maxActive)| == Max(0, |ActiveIds(rows)| - maxActive)
  {
    hide Slice, Listed;
    RowsAreOrdered(WorstFirst, rows);
    if |ActiveIds(rows)| > maxActive {
      TopSize(ActiveIds(rows), InOrder(WorstFirst, rows), |ActiveIds(rows)| - maxActive);
    }
  }

  lemma CountsActive(rows: Table, active: set<nat>)
    requires active == set id | id in rows && rows[id].status.Active?
    ensures active == ActiveIds(rows)
  {
  }

  lemma BenchesOut(rows: Table, out: set<nat>, rows': Table)
    requires rows' == map id | id in rows :: if id in out then rows[id].(status := Quarantined) else rows[id]
    ensures rows' == UpdateIds(rows, out, Quarantine())
  {
  }

  lemma NoOverflow(rows: Table, maxActive: nat, how: Row -> Row)
    requires |ActiveIds(rows)| <= maxActive
    ensures Overflow(rows, maxActive) == {} && UpdateIds(rows, {}, how) == rows
  {
  }

  lemma OverflowIsListed(rows: Table, maxActive: nat)
    requires |ActiveIds(rows)| > maxActive
    ensures StrictTotal(InOrder(WorstFirst, rows), ActiveIds(rows))
    ensures Overflow(rows, maxActive)
            == ToSet(Slice(Listed(ActiveIds(rows), InOrder(WorstFirst, rows)), 0, |ActiveIds(rows)| - maxActive))
  {
    RowsAreOrdered(WorstFirst, rows);
  }

  lemma QuarantineKeepsCounters(rows: Table, ids: set<nat>)
    ensures var rows' := UpdateIds(rows, ids, Quarantine());
            rows'.Keys == rows.Keys && forall id | id in rows :: CountersKept(rows[id], rows'[id])
  {
  }

  lemma OverflowMeansTooMany(rows: Table, maxActive: nat, out: nat)
    requires out in Overflow(rows, maxActive)
    ensures |ActiveIds(rows)| > maxActive
  {
  }

  lemma OverflowIsWorst(rows: Table, maxActive: nat, kept: nat, out: nat)
    requires kept in ActiveIds(rows) - Overflow(rows, maxActive) && out in Overflow(rows, maxActive)
    ensures StaysOver(rows, kept, out)
  {
    var active, before := ActiveIds(rows), InOrder(WorstFirst, rows);
    RowsAreOrdered(WorstFirst, rows);
    OverflowMeansTooMany(rows, maxActive, out);
    TopAreFirst(active, before, |active| - maxActive, out, kept);
  }

  /** The capacity sweep keeps exactly the cap and puts out the rows that rank below the kept ones, of equals those with lower ids. */
  lemma CapacityKeepsTheBest(rows: Table, maxActive: nat)
    ensures Overflow(rows, maxActive) <= ActiveIds(rows)
    ensures |ActiveIds(rows) - Overflow(rows, maxActive)| == Min(|ActiveIds(rows)|, maxActive)
    ensures forall kept, out | kept in ActiveIds(rows) - Overflow(rows, maxActive) && out in Overflow(rows, maxActive) ::
              StaysOver(rows, kept, out)
  {
    hide Overflow, StaysOver;
    OverflowIsPart(rows, maxActive);
    DifferenceSize(ActiveIds(rows), Overflow(rows, maxActive));
    forall kept, out | kept in ActiveIds(rows) - Overflow(rows, maxActive) && out in Overflow(rows, maxActive)
      ensures StaysOver(rows, kept, out)
    {
      OverflowIsWorst(rows, maxActive, kept, out);
    }
  }

  // ------------------------------------------------------------------ pool reads

  ghost predicate InWindow(r: Row, q: PoolQuery) {
    && r.status.Active?
    && r.score >= q.minScore
    && r.lastPassed.Some? && r.lastPassed.value >= Ago(q.now, q.ttlMinutes)
    && (q.maxLatency.Some? ==> r.latency.Some? && r.latency.value <= q.maxLatency.value)
    && (q.service.Required? ==> r.service.Passed?)
  }

  ghost function Eligible(rows: Table, q: PoolQuery): set<nat> {
    set id | id in rows && InWindow(rows[id], q) && (q.columns.Some? ==> q.columns.value(id))
  }

  ghost function ReadOrder(q: PoolQuery): Order { if q.service.Preferred? then ServiceThenBest else BestFirst }

  /**
   * How the pool is shown: a row goes before those that rank below it on score and then latency, and equals go by id;
   * if the service is preferred, rows that passed it go before all others.
   */
  ghost function ShownFirst(rows: Table, passedFirst: bool): Relation {
    (a, b) =>
      a in rows && b in rows
      && if passedFirst && rows[a].service.Passed? != rows[b].service.Passed? then rows[a].service.Passed?
         else !RanksBelow(rows[a], rows[b]) && (RanksBelow(rows[b], rows[a]) || a < b)
  }

  lemma ReadOrderShows(rows: Table, q: PoolQuery)
    ensures SameOrder(InOrder(ReadOrder(q), rows), ShownFirst(rows, q.service.Preferred?), Eligible(rows, q))
    ensures StrictTotal(InOrder(ReadOrder(q), rows), Eligible(rows, q))
  {
    hide StrictTotal, Better, RanksBelow;
    RowsAreOrdered(ReadOrder(q), rows);
    forall a, b | a in rows && b in rows
      ensures Better(a, rows[a], b, rows[b]) <==> RanksBelow(rows[b], rows[a]) || (!RanksBelow(rows[a], rows[b]) && a < b)
    {
      BetterIsAbove(a, rows[a], b, rows[b]);
    }
  }

  lemma BetterIsAbove(a: nat, r: Row, b: nat, s: Row)
    ensures Better(a, r, b, s) <==> RanksBelow(s, r) || (!RanksBelow(r, s) && a < b)
  {
  }

  /** A page: the entries whose turn it is, counting from the offset, in turn, and no fewer than fit. */
  ghost predicate IsPage(rows: Table, q: PoolQuery, entries: seq<nat>) {
    && Placed(entries, q.offset, Eligible(rows, q), ShownFirst(rows, q.service.Preferred?)) && InTurn(entries, ShownFirst(rows, q.service.Preferred?))
    && |entries| == Max(0, Min(q.limit, |Eligible(rows, q)| - q.offset))
  }

  lemma PageOfListing(rows: Table, q: PoolQuery)
    ensures IsPage(rows, q, Slice(PoolListing(rows, q), q.offset, q.limit))
  {
    hide StrictTotal, InOrder, SameOrder, ShownFirst;
    ReadOrderShows(rows, q);
    SliceIsPlaced(Eligible(rows, q), InOrder(ReadOrder(q), rows), ShownFirst(rows, q.service.Preferred?), q.offset, q.limit);
  }

  /** Whatever the two pages of a query, what is on the later one goes after all there is on the earlier one. */
  lemma LaterPagesGoLater(rows: Table, q: PoolQuery, r: PoolQuery, here: seq<nat>, there: seq<nat>)
    requires IsPage(rows, q, here) && IsPage(rows, r, there)
    requires r == q.(limit := r.limit, offset := r.offset) && q.offset + |here| <= r.offset
    ensures forall a, b | a in here && b in there :: ShownFirst(rows, q.service.Preferred?)(a, b)
  {
    hide StrictTotal, InOrder, SameOrder, ShownFirst;
    assert Eligible(rows, r) == Eligible(rows, q);
    ReadOrderShows(rows, q);
    forall a, b | a in here && b in there ensures ShownFirst(rows, q.service.Preferred?)(a, b) {
      var i :| 0 <= i < |here| && here[i] == a;
      var j :| 0 <= j < |there| && there[j] == b;
      LaterPlaceGoesLater(Eligible(rows, q), InOrder(ReadOrder(q), rows), ShownFirst(rows, q.service.Preferred?), a, b);
    }
  }

  /** Everything a query can page through, best entry first. */
  ghost function PoolListing(rows: Table, q: PoolQuery): seq<nat> {
    RowsAreOrdered(ReadOrder(q), rows);
    Listed(Eligible(rows, q), InOrder(ReadOrder(q), rows))
  }

  /** For any positive page size, pages 0, 1, 2, ... list every eligible row exactly once in rank order. */
  lemma PagesCoverThePool(rows: Table, q: PoolQuery, limit: nat)
    requires 0 < limit
    ensures Distinct(PoolListing(rows, q)) && ToSet(PoolListing(rows, q)) == Eligible(rows, q)
    ensures Flatten(Chunks(PoolListing(rows, q), limit)) == PoolListing(rows, q)
    ensures forall page: nat :: 0 <= page * limit
    ensures forall page: nat :: Slice(PoolListing(rows, q), page * limit, limit)
                                == (if page < |Chunks(PoolListing(rows, q), limit)|
                                    then Chunks(PoolListing(rows, q), limit)[page] else [])
  {
    RowsAreOrdered(ReadOrder(q), rows);
    PagesListEverything(Eligible(rows, q), InOrder(ReadOrder(q), rows), limit);
  }

  // ------------------------------------------------------------------ validation queue

  datatype QueueOptions = QueueOptions(
    newLimit: int, quarantineLimit: int, recheckLimit: int, recheckAfterMinutes: int, now: int)

  ghost function Fresh(rows: Table): set<nat> { Matching(rows, (r: Row) => r.status.New?) }

  ghost function Benched(rows: Table): set<nat> { Matching(rows, (r: Row) => r.status.Quarantined?) }

  ghost function Due(rows: Table, cutoff: int): set<nat> {
    Matching(rows, (r: Row) => r.status.Active? && OlderThan(r.lastChecked, cutoff))
  }

  /** The first rows of a query, or none when its limit is not positive. */
  ghost function Top(rows: Table, ids: set<nat>, ord: Order, limit: int): seq<nat>
    requires ids <= rows.Keys
  {
    RowsAreOrdered(ord, rows);
    if limit > 0 then Slice(Listed(ids, InOrder(ord, rows)), 0, limit) else []
  }

  function Ids(s: seq<Snapshot>): seq<nat> {
    if s == [] then [] else [s[0].id] + Ids(s[1..])
  }

  lemma {:induction false} IdsAt(s: seq<Snapshot>)
    ensures |Ids(s)| == |s|
    ensures forall k | 0 <= k < |s| :: Ids(s)[k] == s[k].id
  {
    if s != [] {
      IdsAt(s[1..]);
    }
  }

  /** Rows as they stand in the table. */
  ghost predicate Current(rows: Table, s: seq<Snapshot>) {
    forall k | 0 <= k < |s| :: s[k].id in rows && rows[s[k].id] == s[k].row
  }

  lemma {:induction false} IdsConcat(a: seq<Snapshot>, b: seq<Snapshot>)
    ensures Ids(a + b) == Ids(a) + Ids(b)
  {
    if a == [] {
      assert a + b == b;
    } else {
      assert (a + b)[1..] == a[1..] + b;
      IdsConcat(a[1..], b);
    }
  }

  lemma NoIds()
    ensures Ids([]) == [] && Distinct(Ids([])) && ToSet(Ids([])) == {}
  {
  }

  lemma OneMoreDistinct(a: seq<Snapshot>, s: Snapshot)
    requires Distinct(Ids(a)) && s.id !in ToSet(Ids(a))
    ensures Distinct(Ids(a + [s])) && ToSet(Ids(a + [s])) == ToSet(Ids(a)) + {s.id}
  {
    hide Ids;
    OneMoreId(a, s);
    assert forall k | 0 <= k < |Ids(a)| :: Ids(a)[k] in ToSet(Ids(a));
  }

  lemma RepeatedId(all: seq<Snapshot>, i: nat)
    requires i < |all| && all[i].id in ToSet(Ids(all[..i]))
    ensures !Distinct(Ids(all))
  {
    IdsAt(all);
    IdsAt(all[..i]);
    var k :| 0 <= k < i && Ids(all[..i])[k] == all[i].id;
    assert Ids(all)[k] == Ids(all)[i];
  }

  lemma OneMoreId(a: seq<Snapshot>, s: Snapshot)
    ensures Ids(a + [s]) == Ids(a) + [s.id]
  {
    IdsConcat(a, [s]);
    assert Ids([s]) == [s.id] + Ids([s][1..]);
  }

  /** A value that comes earlier, an unknown one being the earliest. */
  ghost predicate Earlier(x: Option<int>, y: Option<int>) { y.Some? && (x.None? || x.value < y.value) }

  ghost function LowestId(): Relation { (a, b) => a < b }

  ghost function LongestWaiting(rows: Table): Relation {
    (a, b) =>
      a in rows && b in rows
      && !Earlier(rows[b].lastChecked, rows[a].lastChecked)
      && (Earlier(rows[a].lastChecked, rows[b].lastChecked) || a < b)
  }

  ghost function HighestScore(rows: Table): Relation {
    (a, b) =>
      a in rows && b in rows && rows[a].score >= rows[b].score && (rows[a].score > rows[b].score || a < b)
  }

  /** By score; of equals the faster ones, those of unknown latency in front. */
  ghost function HighestThenFastest(rows: Table): Relation {
    (a, b) =>
      a in rows && b in rows && rows[a].score >= rows[b].score
      && (rows[a].score > rows[b].score
          || (!Earlier(rows[b].latency, rows[a].latency) && (Earlier(rows[a].latency, rows[b].latency) || a < b)))
  }

  /** The entries whose turn it is, as many as the limit admits. */
  ghost predicate TakenFirst(entries: seq<nat>, ids: set<nat>, goesFirst: Relation, limit: int) {
    Placed(entries, 0, ids, goesFirst) && InTurn(entries, goesFirst) && |entries| == Max(0, Min(limit, |ids|))
  }

  lemma TopIsTaken(rows: Table, ids: set<nat>, ord: Order, goesFirst: Relation, limit: int)
    requires ids <= rows.Keys && SameOrder(InOrder(ord, rows), goesFirst, ids)
    ensures TakenFirst(Top(rows, ids, ord, limit), ids, goesFirst, limit)
  {
    hide StrictTotal, InOrder, SameOrder, Placed, InTurn;
    RowsAreOrdered(ord, rows);
    if limit > 0 {
      SliceIsPlaced(ids, InOrder(ord, rows), goesFirst, 0, limit);
    } else {
      NothingTaken(ids, goesFirst);
    }
  }

  lemma NothingTaken(ids: set<nat>, goesFirst: Relation)
    ensures Placed([], 0, ids, goesFirst) && InTurn([], goesFirst)
  {
  }

  lemma SameTime(x: Option<int>, y: Option<int>)
    ensures x == y <==> !Earlier(x, y) && !Earlier(y, x)
    ensures NullsFirst(x, y) == Earlier(x, y)
  {
    assert x.Some? && y.Some? && x.value == y.value ==> x == y;
  }

  lemma OrdersMean(rows: Table)
    ensures SameOrder(InOrder(OldestId, rows), LowestId(), rows.Keys)
    ensures SameOrder(InOrder(LongestUnchecked, rows), LongestWaiting(rows), rows.Keys)
    ensures SameOrder(InOrder(ScoreOnly, rows), HighestScore(rows), rows.Keys)
    ensures SameOrder(InOrder(ServiceQueue, rows), HighestThenFastest(rows), rows.Keys)
  {
    hide Earlier, Precedes;
    forall a, b | a in rows && b in rows
      ensures InOrder(OldestId, rows)(a, b) <==> LowestId()(a, b)
      ensures InOrder(LongestUnchecked, rows)(a, b) <==> LongestWaiting(rows)(a, b)
      ensures InOrder(ScoreOnly, rows)(a, b) <==> HighestScore(rows)(a, b)
      ensures InOrder(ServiceQueue, rows)(a, b) <==> HighestThenFastest(rows)(a, b)
    {
      OrdersMeanFor(a, rows[a], b, rows[b]);
    }
  }

  lemma OrdersMeanFor(a: nat, r: Row, b: nat, s: Row)
    ensures Precedes(OldestId, a, r, b, s) <==> a < b
    ensures Precedes(LongestUnchecked, a, r, b, s)
            <==> !Earlier(s.lastChecked, r.lastChecked) && (Earlier(r.lastChecked, s.lastChecked) || a < b)
    ensures Precedes(ScoreOnly, a, r, b, s) <==> r.score >= s.score && (r.score > s.score || a < b)
    ensures Precedes(ServiceQueue, a, r, b, s)
            <==> r.score >= s.score
                 && (r.score > s.score || (!Earlier(s.latency, r.latency) && (Earlier(r.latency, s.latency) || a < b)))
  {
    hide Earlier, NullsFirst;
    SameTime(r.lastChecked, s.lastChecked);
    SameTime(r.latency, s.latency);
    NotBoth(r.lastChecked, s.lastChecked);
    NotBoth(r.latency, s.latency);
  }

  lemma NotBoth(x: Option<int>, y: Option<int>)
    ensures !(Earlier(x, y) && Earlier(y, x))
  {
  }

  lemma SameOrderOnPart(before: Relation, goesFirst: Relation, ids: set<nat>, all: set<nat>)
    requires SameOrder(before, goesFirst, all) && ids <= all
    ensures SameOrder(before, goesFirst, ids)
  {
  }

  /**
   * A validation queue: the oldest new rows, then the benched rows waiting longest, then the members waiting longest of
   * those not checked for a while.
   */
  ghost predicate IsQueue(rows: Table, o: QueueOptions, queue: seq<nat>) {
    exists unchecked, benched, due ::
      && queue == unchecked + benched + due
      && TakenFirst(unchecked, Fresh(rows), LowestId(), o.newLimit)
      && TakenFirst(benched, Benched(rows), LongestWaiting(rows), o.quarantineLimit)
      && TakenFirst(due, Due(rows, Ago(o.now, o.recheckAfterMinutes)), LongestWaiting(rows), o.recheckLimit)
  }

  lemma QueueInTurn(rows: Table, o: QueueOptions)
    ensures IsQueue(rows, o, QueueIds(rows, o))
  {
    hide InOrder, SameOrder, TakenFirst, Top, LongestWaiting, LowestId;
    OrdersMean(rows);
    var cutoff := Ago(o.now, o.recheckAfterMinutes);
    SameOrderOnPart(InOrder(OldestId, rows), LowestId(), Fresh(rows), rows.Keys);
    SameOrderOnPart(InOrder(LongestUnchecked, rows), LongestWaiting(rows), Benched(rows), rows.Keys);
    SameOrderOnPart(InOrder(LongestUnchecked, rows), LongestWaiting(rows), Due(rows, cutoff), rows.Keys);
    TopIsTaken(rows, Fresh(rows), OldestId, LowestId(), o.newLimit);
    TopIsTaken(rows, Benched(rows), LongestUnchecked, LongestWaiting(rows), o.quarantineLimit);
    TopIsTaken(rows, Due(rows, cutoff), LongestUnchecked, LongestWaiting(rows), o.recheckLimit);
  }

  /** The ids one validation queue consists of: new rows, then quarantined ones, then active ones due for a recheck. */
  ghost function QueueIds(rows: Table, o: QueueOptions): seq<nat> {
    Top(rows, Fresh(rows), OldestId, o.newLimit)
    + Top(rows, Benched(rows), LongestUnchecked, o.quarantineLimit)
    + Top(rows, Due(rows, Ago(o.now, o.recheckAfterMinutes)), LongestUnchecked, o.recheckLimit)
  }

  lemma TopIsPart(rows: Table, ids: set<nat>, ord: Order, limit: int)
    requires ids <= rows.Keys
    ensures Distinct(Top(rows, ids, ord, limit))
    ensures forall x <- Top(rows, ids, ord, limit) :: x in ids
  {
    RowsAreOrdered(ord, rows);
    if limit > 0 {
      TopSize(ids, InOrder(ord, rows), limit);
      assert forall x <- Top(rows, ids, ord, limit) :: x in ToSet(Top(rows, ids, ord, limit));
    }
  }

  lemma SelectedFrom(rows: Table, ids: set<nat>, ord: Order, limit: int, found: seq<Snapshot>)
    requires ids <= rows.Keys && Ids(found) == Top(rows, ids, ord, limit)
    ensures forall k | 0 <= k < |found| :: found[k].id in ids
  {
    TopIsPart(rows, ids, ord, limit);
    IdsAt(found);
    forall k | 0 <= k < |found| ensures found[k].id in ids {
      assert Ids(found)[k] in Top(rows, ids, ord, limit);
    }
  }

  lemma DistinctConcat(a: seq<nat>, b: seq<nat>)
    requires Distinct(a) && Distinct(b) && forall x <- a :: x !in b
    ensures Distinct(a + b)
  {
    var s := a + b;
    forall i, j | 0 <= i < j < |s| ensures s[i] != s[j] {
      if i < |a| <= j {
        assert s[i] in a && s[j] == b[j - |a|];
      }
    }
  }

  /** The three parts of the queue never overlap, so no row is queued twice. */
  lemma QueueIsDistinct(rows: Table, o: QueueOptions)
    ensures Distinct(QueueIds(rows, o))
    ensures forall id <- QueueIds(rows, o) :: id in rows && Claimable(rows[id])
  {
    var cutoff := Ago(o.now, o.recheckAfterMinutes);
    var a := Top(rows, Fresh(rows), OldestId, o.newLimit);
    var b := Top(rows, Benched(rows), LongestUnchecked, o.quarantineLimit);
    var c := Top(rows, Due(rows, cutoff), LongestUnchecked, o.recheckLimit);
    TopIsPart(rows, Fresh(rows), OldestId, o.newLimit);
    TopIsPart(rows, Benched(rows), LongestUnchecked, o.quarantineLimit);
    TopIsPart(rows, Due(rows, cutoff), LongestUnchecked, o.recheckLimit);
    assert forall x <- a :: rows[x].status.New?;
    assert forall x <- b :: rows[x].status.Quarantined?;
    assert forall x <- c :: rows[x].status.Active?;
    DistinctConcat(a, b);
    DistinctConcat(a + b, c);
  }

  // ------------------------------------------------------------------ upserts

  ghost predicate HasKey(rows: Table, key: string) { exists id :: id in rows && rows[id].key == key }

  ghost predicate UniqueKeys(rows: Table) {
    forall i, j | i in rows && j in rows && i != j :: rows[i].key != rows[j].key
  }

  ghost predicate Mentions(cs: seq<Candidate>, key: string) { exists k :: 0 <= k < |cs| && cs[k].key == key }

  ghost predicate DistinctKeys(cs: seq<Candidate>) { forall i, j :: 0 <= i < j < |cs| ==> cs[i].key != cs[j].key }

  ghost function CountUnknown(rows: Table, cs: seq<Candidate>): nat {
    if cs == [] then 0
    else CountUnknown(rows, cs[..|cs| - 1]) + (if HasKey(rows, cs[|cs| - 1].key) then 0 else 1)
  }

  ghost function Touched(r: Row, cycle: string, now: int): Row {
    r.(lastSeen := now, lastCycle := Some(cycle), status := if r.status.Dead? then New else r.status)
  }

  ghost function NewRow(c: Candidate, cycle: string, now: int): Row {
    Row(c.key, New, Unchecked, Untested, 0, None, c.anonymity, now, Some(cycle), None, None, None, 0, 0, 0)
  }

  ghost function TouchKey(rows: Table, key: string, cycle: string, now: int): Table {
    map id | id in rows :: if rows[id].key == key then Touched(rows[id], cycle, now) else rows[id]
  }

  lemma BlankRow(c: Candidate, cycle: string, now: int)
    ensures NewRow(c, cycle, now)
            == Row(c.key, New, Unchecked, Untested, 0, None, c.anonymity, now, Some(cycle), None, None, None, 0, 0, 0)
  {
  }

  lemma KnownIds(rows: Table, key: string, known: set<nat>)
    requires known == set id | id in rows && rows[id].key == key
    ensures HasKey(rows, key) <==> known != {}
  {
    if HasKey(rows, key) {
      var id :| id in rows && rows[id].key == key;
      assert id in known;
    } else {
      assert forall id :: id !in known;
    }
  }

  lemma TouchesKnown(rows: Table, key: string, known: set<nat>, cycle: string, now: int, rows': Table)
    requires known == set id | id in rows && rows[id].key == key
    requires rows' == map id | id in rows ::
      if id in known then
        rows[id].(lastSeen := now, lastCycle := Some(cycle), status := if rows[id].status == Dead then New else rows[id].status)
      else rows[id]
    ensures rows' == TouchKey(rows, key, cycle, now)
  {
  }

  /** Known rows named by `cs` are touched (and revived when dead) and keep their history; the others are unchanged. */
  ghost predicate KnownTouched(rows: Table, rows': Table, cs: seq<Candidate>, cycle: string, now: int) {
    && rows.Keys <= rows'.Keys
    && forall id | id in rows :: rows'[id] == if Mentions(cs, rows[id].key) then Touched(rows[id], cycle, now) else rows[id]
  }

  /** Rows the table did not have are new rows of `cs`, without history, under keys the table did not have. */
  ghost predicate OthersNew(rows: Table, rows': Table, cs: seq<Candidate>, cycle: string, now: int) {
    forall id | id in rows' && id !in rows ::
      !HasKey(rows, rows'[id].key) && exists k :: 0 <= k < |cs| && rows'[id] == NewRow(cs[k], cycle, now)
  }

  ghost predicate Upserted(rows: Table, rows': Table, cs: seq<Candidate>, cycle: string, now: int) {
    && KnownTouched(rows, rows', cs, cycle, now)
    && OthersNew(rows, rows', cs, cycle, now)
    && (forall k | 0 <= k < |cs| :: HasKey(rows', cs[k].key))
    && |rows'| == |rows| + CountUnknown(rows, cs)
    && (UniqueKeys(rows) ==> UniqueKeys(rows'))
  }

  /** A row that was only just found: never checked, and seen in this cycle. */
  ghost predicate LooksNew(r: Row, cycle: string, now: int) {
    && Blank(r) && r.status.New? && r.validation.Unchecked? && r.service.Untested? && r.score == 0
    && r.lastSeen == now && r.lastCycle == Some(cycle)
    && r.latency.None? && r.lastChecked.None? && r.serviceChecked.None?
  }

  /** A row that was seen again, if `found`: seen now and in this cycle, new again if it was dead, and otherwise as it was. */
  ghost predicate SeenAgain(r: Row, s: Row, found: bool, cycle: string, now: int) {
    if found then
      && s == r.(lastSeen := now, lastCycle := Some(cycle), status := s.status)
      && (if r.status.Dead? then s.status.New? else s.status == r.status)
    else s == r
  }

  /**
   * What finding `cs` makes of the table: rows whose key was found are seen again, the others are as they were, each
   * further row looks new and is one of `cs`, and every key found has a row.
   */
  ghost predicate Rediscovered(before: Table, after: Table, cs: seq<Candidate>, cycle: string, now: int) {
    && (forall id | id in before :: id in after && SeenAgain(before[id], after[id], Mentions(cs, before[id].key), cycle, now))
    && (forall id | id in after && id !in before ::
          LooksNew(after[id], cycle, now) && exists k :: 0 <= k < |cs| && cs[k] == Candidate(after[id].key, after[id].anonymity))
    && (forall k | 0 <= k < |cs| :: HasKey(after, cs[k].key))
  }

  lemma KnownMeans(rows: Table, rows': Table, cs: seq<Candidate>, cycle: string, now: int, id: nat)
    requires KnownTouched(rows, rows', cs, cycle, now) && id in rows
    ensures id in rows' && SeenAgain(rows[id], rows'[id], Mentions(cs, rows[id].key), cycle, now)
  {
  }

  lemma NewMeans(rows: Table, rows': Table, cs: seq<Candidate>, cycle: string, now: int, id: nat)
    requires OthersNew(rows, rows', cs, cycle, now) && id in rows' && id !in rows
    ensures LooksNew(rows'[id], cycle, now)
    ensures exists k :: 0 <= k < |cs| && cs[k] == Candidate(rows'[id].key, rows'[id].anonymity)
  {
    var k :| 0 <= k < |cs| && rows'[id] == NewRow(cs[k], cycle, now);
    assert cs[k] == Candidate(rows'[id].key, rows'[id].anonymity);
  }

  lemma UpsertedMeans(rows: Table, rows': Table, cs: seq<Candidate>, cycle: string, now: int)
    requires Upserted(rows, rows', cs, cycle, now)
    ensures Rediscovered(rows, rows', cs, cycle, now)
  {
    hide KnownTouched, OthersNew, UniqueKeys, CountUnknown, SeenAgain, LooksNew, Mentions, HasKey;
    forall id | id in rows ensures id in rows' && SeenAgain(rows[id], rows'[id], Mentions(cs, rows[id].key), cycle, now) {
      KnownMeans(rows, rows', cs, cycle, now, id);
    }
    forall id | id in rows' && id !in rows
      ensures LooksNew(rows'[id], cycle, now) && exists k :: 0 <= k < |cs| && cs[k] == Candidate(rows'[id].key, rows'[id].anonymity)
    {
      NewMeans(rows, rows', cs, cycle, now, id);
    }
  }

  ghost function ExtendedLog(log: History, rows': Table): History {
    map id | id in rows' :: if id in log then log[id] else []
  }

  lemma ExtendedBySame(log: History, rows: Table)
    requires rows.Keys == log.Keys
    ensures ExtendedLog(log, rows) == log
  {
  }

  lemma ExtendedTwice(log: History, mid: History, rows: Table)
    requires log.Keys <= mid.Keys && forall id | id in mid :: mid[id] == if id in log then log[id] else []
    ensures ExtendedLog(mid, rows) == ExtendedLog(log, rows)
  {
  }

  lemma {:induction false} CountUnknownConcat(rows: Table, a: seq<Candidate>, b: seq<Candidate>)
    ensures CountUnknown(rows, a + b) == CountUnknown(rows, a) + CountUnknown(rows, b)
    decreases |b|
  {
    if b == [] {
      assert a + b == a;
    } else {
      var n := |b| - 1;
      assert (a + b)[..|a + b| - 1] == a + b[..n];
      CountUnknownConcat(rows, a, b[..n]);
    }
  }

  lemma ExtendingKeeps(db: Db, rows: Table)
    ensures HistoryKept(db, Db(rows, ExtendedLog(db.log, rows)))
  {
  }

  /** A row no check has been recorded for. */
  ghost predicate Blank(r: Row) { r.checks == 0 && r.passes == 0 && r.failures == 0 && r.lastPassed.None? }

  lemma NewRowsAreBlank(rows: Table, rows': Table, cs: seq<Candidate>, cycle: string, now: int)
    requires Upserted(rows, rows', cs, cycle, now)
    ensures forall id | id in rows' && id !in rows :: Blank(rows'[id])
    ensures forall id | id in rows :: id in rows' && CountersKept(rows[id], rows'[id])
  {
  }

  /** Going on with an upsert that has begun keeps every counter in step with its log. */
  lemma UpsertKeepsFaithful(start: Table, db: Db, rows': Table, cs: seq<Candidate>, more: seq<Candidate>, cycle: string, now: int)
    requires Faithful(db)
    requires Upserted(start, db.rows, cs, cycle, now) && Upserted(start, rows', more, cycle, now)
    ensures Faithful(Db(rows', ExtendedLog(db.log, rows')))
  {
    NewRowsAreBlank(start, db.rows, cs, cycle, now);
    NewRowsAreBlank(start, rows', more, cycle, now);
    CountersStayInStep(start, db, rows');
  }

  lemma CountersStayInStep(start: Table, db: Db, rows': Table)
    requires Faithful(db)
    requires forall id | id in db.rows && id !in start :: Blank(db.rows[id])
    requires forall id | id in rows' && id !in start :: Blank(rows'[id])
    requires forall id | id in start :: id in db.rows && id in rows'
    requires forall id | id in start :: CountersKept(start[id], db.rows[id]) && CountersKept(start[id], rows'[id])
    ensures Faithful(Db(rows', ExtendedLog(db.log, rows')))
  {
    var log' := ExtendedLog(db.log, rows');
    forall id | id in rows' ensures CountersMatch(rows'[id], log'[id]) {
      if id in db.rows {
        assert CountersMatch(db.rows[id], db.log[id]);
      }
    }
  }

  /** A key not named so far is in the table now exactly if it was there before. */
  lemma KeyStillUnknown(rows: Table, mid: Table, cs: seq<Candidate>, key: string, cycle: string, now: int)
    requires KnownTouched(rows, mid, cs, cycle, now) && OthersNew(rows, mid, cs, cycle, now)
    requires !Mentions(cs, key)
    ensures HasKey(mid, key) <==> HasKey(rows, key)
  {
    if HasKey(rows, key) {
      var id :| id in rows && rows[id].key == key;
      assert mid[id].key == key;
    }
  }

  lemma TouchedIsKnown(rows: Table, mid: Table, cs: seq<Candidate>, c: Candidate, cycle: string, now: int)
    requires KnownTouched(rows, mid, cs, cycle, now) && !Mentions(cs, c.key)
    ensures KnownTouched(rows, TouchKey(mid, c.key, cycle, now), cs + [c], cycle, now)
  {
    MentionsAppend(cs, c);
  }

  lemma TouchedNotNew(rows: Table, mid: Table, cs: seq<Candidate>, c: Candidate, cycle: string, now: int)
    requires OthersNew(rows, mid, cs, cycle, now) && HasKey(rows, c.key)
    ensures OthersNew(rows, TouchKey(mid, c.key, cycle, now), cs + [c], cycle, now)
  {
    var cs', rows' := cs + [c], TouchKey(mid, c.key, cycle, now);
    forall id | id in rows' && id !in rows
      ensures !HasKey(rows, rows'[id].key) && exists k :: 0 <= k < |cs'| && rows'[id] == NewRow(cs'[k], cycle, now)
    {
      var k :| 0 <= k < |cs| && mid[id] == NewRow(cs[k], cycle, now);
      assert cs'[k] == cs[k] && rows'[id] == mid[id];
    }
  }

  lemma TouchKeepsKeys(mid: Table, key: string, cycle: string, now: int)
    ensures var rows' := TouchKey(mid, key, cycle, now);
            && rows'.Keys == mid.Keys && |rows'| == |mid| && (UniqueKeys(mid) ==> UniqueKeys(rows'))
            && forall k: string :: HasKey(mid, k) ==> HasKey(rows', k)
  {
    var rows' := TouchKey(mid, key, cycle, now);
    assert rows'.Keys == mid.Keys;
    forall k: string | HasKey(mid, k) ensures HasKey(rows', k) {
      var id :| id in mid && mid[id].key == k;
      assert rows'[id].key == k;
    }
  }

  lemma UpsertKnown(rows: Table, mid: Table, cs: seq<Candidate>, c: Candidate, cycle: string, now: int)
    requires Upserted(rows, mid, cs, cycle, now) && !Mentions(cs, c.key) && HasKey(mid, c.key)
    ensures Upserted(rows, TouchKey(mid, c.key, cycle, now), cs + [c], cycle, now)
  {
    hide KnownTouched, OthersNew, HasKey, UniqueKeys, TouchKey, Mentions;
    var cs' := cs + [c];
    KeyStillUnknown(rows, mid, cs, c.key, cycle, now);
    TouchedIsKnown(rows, mid, cs, c, cycle, now);
    TouchedNotNew(rows, mid, cs, c, cycle, now);
    TouchKeepsKeys(mid, c.key, cycle, now);
    assert cs'[..|cs|] == cs;
  }

  lemma InsertedIsNew(rows: Table, mid: Table, id: nat, cs: seq<Candidate>, c: Candidate, cycle: string, now: int)
    requires OthersNew(rows, mid, cs, cycle, now) && !HasKey(rows, c.key)
    ensures OthersNew(rows, mid[id := NewRow(c, cycle, now)], cs + [c], cycle, now)
  {
    var cs', rows' := cs + [c], mid[id := NewRow(c, cycle, now)];
    forall x | x in rows' && x !in rows
      ensures !HasKey(rows, rows'[x].key) && exists k :: 0 <= k < |cs'| && rows'[x] == NewRow(cs'[k], cycle, now)
    {
      if x == id {
        assert cs'[|cs|] == c;
      } else {
        var k :| 0 <= k < |cs| && mid[x] == NewRow(cs[k], cycle, now);
        assert cs'[k] == cs[k];
      }
    }
  }

  lemma InsertedHasKeys(mid: Table, id: nat, cs: seq<Candidate>, c: Candidate, row: Row)
    requires id !in mid && row.key == c.key
    requires forall k | 0 <= k < |cs| :: HasKey(mid, cs[k].key)
    ensures forall k | 0 <= k < |cs| + 1 :: HasKey(mid[id := row], (cs + [c])[k].key)
  {
    forall k | 0 <= k < |cs| + 1 ensures HasKey(mid[id := row], (cs + [c])[k].key) {
      if k < |cs| {
        assert HasKey(mid, cs[k].key);
        var x :| x in mid && mid[x].key == cs[k].key;
        assert mid[id := row][x].key == cs[k].key;
      } else {
        assert mid[id := row][id].key == c.key;
      }
    }
  }

  lemma InsertedKeepsUnique(mid: Table, id: nat, row: Row)
    requires id !in mid && !HasKey(mid, row.key) && UniqueKeys(mid)
    ensures UniqueKeys(mid[id := row])
  {
  }

  lemma UpsertNew(rows: Table, mid: Table, id: nat, cs: seq<Candidate>, c: Candidate, cycle: string, now: int)
    requires Upserted(rows, mid, cs, cycle, now) && !Mentions(cs, c.key) && !HasKey(mid, c.key) && id !in mid
    ensures Upserted(rows, mid[id := NewRow(c, cycle, now)], cs + [c], cycle, now)
  {
    var row := NewRow(c, cycle, now);
    KeyStillUnknown(rows, mid, cs, c.key, cycle, now);
    InsertedIsNew(rows, mid, id, cs, c, cycle, now);
    InsertedHasKeys(mid, id, cs, c, row);
    if UniqueKeys(rows) {
      InsertedKeepsUnique(mid, id, row);
    }
    NewKeyUntouched(rows, mid, id, cs, c, cycle, now);
    assert (cs + [c])[..|cs|] == cs;
  }

  lemma NewKeyUntouched(rows: Table, mid: Table, id: nat, cs: seq<Candidate>, c: Candidate, cycle: string, now: int)
    requires KnownTouched(rows, mid, cs, cycle, now) && !HasKey(rows, c.key) && id !in mid
    ensures KnownTouched(rows, mid[id := NewRow(c, cycle, now)], cs + [c], cycle, now)
  {
    MentionsAppend(cs, c);
  }

  /** Key by key, the first candidate listed under it. */
  ghost function FirstByKey(cs: seq<Candidate>): seq<Candidate> {
    if cs == [] then []
    else
      var n := |cs| - 1;
      var before := FirstByKey(cs[..n]);
      if Mentions(before, cs[n].key) then before else before + [cs[n]]
  }

  /** The candidate is listed, and none before it has its key. */
  ghost predicate ListedFirst(cs: seq<Candidate>, c: Candidate) {
    exists i :: 0 <= i < |cs| && cs[i] == c && !Mentions(cs[..i], c.key)
  }

  lemma ListedFirstStays(cs: seq<Candidate>, last: Candidate, c: Candidate)
    requires ListedFirst(cs, c)
    ensures ListedFirst(cs + [last], c)
  {
    var i :| 0 <= i < |cs| && cs[i] == c && !Mentions(cs[..i], c.key);
    assert (cs + [last])[..i] == cs[..i] && (cs + [last])[i] == c;
  }

  /** Every key listed is kept once, by the first candidate that lists it. */
  lemma {:induction false} FirstByKeyMeans(cs: seq<Candidate>)
    ensures DistinctKeys(FirstByKey(cs))
    ensures forall key: string :: Mentions(FirstByKey(cs), key) <==> Mentions(cs, key)
    ensures forall k | 0 <= k < |FirstByKey(cs)| :: ListedFirst(cs, FirstByKey(cs)[k])
    decreases |cs|
  {
    if cs != [] {
      hide ListedFirst, DistinctKeys, Mentions;
      var n := |cs| - 1;
      var shorter, last := cs[..n], cs[n];
      var before := FirstByKey(shorter);
      assert shorter + [last] == cs;
      FirstByKeyMeans(shorter);
      MentionsAppend(shorter, last);
      MentionsAppend(before, last);
      forall k | 0 <= k < |before| ensures ListedFirst(cs, before[k]) {
        ListedFirstStays(shorter, last, before[k]);
      }
      if !Mentions(before, last.key) {
        FirstMentionKept(shorter, before, last);
      }
    }
  }

  lemma FirstMentionKept(shorter: seq<Candidate>, before: seq<Candidate>, last: Candidate)
    requires DistinctKeys(before) && !Mentions(before, last.key) && !Mentions(shorter, last.key)
    ensures DistinctKeys(before + [last]) && ListedFirst(shorter + [last], last)
  {
    var cs := shorter + [last];
    assert cs[..|shorter|] == shorter && cs[|shorter|] == last;
  }

  lemma MentionsAppend(cs: seq<Candidate>, c: Candidate)
    ensures forall key :: Mentions(cs + [c], key) <==> Mentions(cs, key) || key == c.key
  {
    var cs' := cs + [c];
    forall key ensures Mentions(cs', key) <==> Mentions(cs, key) || key == c.key {
      assert cs'[|cs|] == c;
      assert forall k | 0 <= k < |cs| :: cs'[k] == cs[k];
    }
  }

  lemma SameKeysStayUnique(rows: Table, rows': Table)
    requires rows'.Keys == rows.Keys && UniqueKeys(rows)
    requires forall id | id in rows :: rows'[id].key == rows[id].key
    ensures UniqueKeys(rows')
  {
  }

  ghost predicate AllBelow(ids: set<nat>, b: nat) { forall x | x in ids :: x < b }

  lemma {:induction false} BoundExists(ids: set<nat>)
    ensures exists b: nat :: AllBelow(ids, b)
    decreases |ids|
  {
    if ids == {} {
      assert AllBelow(ids, 0);
    } else {
      var m :| m in ids;
      BoundExists(ids - {m});
      var b: nat :| AllBelow(ids - {m}, b);
      forall x | x in ids ensures x < Max(b, m + 1) {
        assert x != m ==> x in ids - {m};
      }
      assert AllBelow(ids, Max(b, m + 1));
    }
  }

  /** The database can always hand out an id that is not in use. */
  lemma FreeIdExists(rows: Table)
    ensures exists id: nat :: id !in rows
  {
    BoundExists(rows.Keys);
    var b: nat :| AllBelow(rows.Keys, b);
    assert b !in rows.Keys;
    assert b !in rows;
  }

  /** Claiming chunk after chunk claims the union. */
  lemma ClaimInPieces(rows: Table, a: set<nat>, b: set<nat>, cycle: string)
    ensures Claim(Claim(rows, a, cycle), b, cycle) == Claim(rows, a + b, cycle)
  {
  }

  lemma ClaimsListed(rows: Table, ids: seq<nat>, cycle: string, rows': Table)
    requires rows' == map id | id in rows ::
                        if id in ids && rows[id].status in {New, Quarantined, Active}
                        then rows[id].(status := Pending, lastCycle := Some(cycle)) else rows[id]
    ensures rows' == Claim(rows, ToSet(ids), cycle)
  {
  }

  lemma ClaimMeans(rows: Table, ids: seq<nat>, cycle: string)
    ensures Claim(rows, ToSet(ids), cycle)
            == map id | id in rows ::
                 var r := rows[id];
                 if id in ids && (r.status.New? || r.status.Quarantined? || r.status.Active?)
                 then r.(status := Pending, lastCycle := Some(cycle)) else r
  {
  }

  lemma ClaimNothing(rows: Table, cycle: string)
    ensures Claim(rows, {}, cycle) == rows
  {
  }

  lemma NothingClaimed(rows: Table, chunks: seq<seq<nat>>, cycle: string)
    ensures rows == Claim(rows, ToSet(Flatten(chunks[..0])), cycle) && OnlyStatuses(rows, rows)
  {
    ClaimNothing(rows, cycle);
    assert ToSet(Flatten(chunks[..0])) == {};
  }

  lemma ChunkClaimed(rows: Table, chunks: seq<seq<nat>>, i: nat, cycle: string)
    requires i < |chunks|
    ensures Claim(Claim(rows, ToSet(Flatten(chunks[..i])), cycle), ToSet(chunks[i]), cycle)
            == Claim(rows, ToSet(Flatten(chunks[..i + 1])), cycle)
  {
    hide Claim, Flatten;
    FlattenAt(chunks, i);
    ClaimInPieces(rows, ToSet(Flatten(chunks[..i])), ToSet(chunks[i]), cycle);
    assert ToSet(Flatten(chunks[..i + 1])) == ToSet(Flatten(chunks[..i])) + ToSet(chunks[i]);
  }

  lemma OnlyStatusesOn(a: Table, b: Table, c: Table)
    requires OnlyStatuses(a, b) && OnlyStatuses(b, c)
    ensures OnlyStatuses(a, c)
  {
  }

  lemma UpsertNothing(rows: Table, cycle: string, now: int)
    ensures Upserted(rows, rows, [], cycle, now)
  {
  }

  lemma DistinctKeysPart(a: seq<Candidate>, b: seq<Candidate>, c: seq<Candidate>)
    requires DistinctKeys(a + b + c)
    ensures DistinctKeys(a + b)
  {
    var all, part := a + b + c, a + b;
    assert forall k | 0 <= k < |part| :: part[k] == all[k];
  }

  /** In a list with distinct keys no entry's key occurs before it. */
  lemma NextIsNew(done: seq<Candidate>, batch: seq<Candidate>, i: nat)
    requires DistinctKeys(done + batch) && i < |batch|
    ensures done + batch[..i + 1] == (done + batch[..i]) + [batch[i]]
    ensures !Mentions(done + batch[..i], batch[i].key)
  {
    var all, seen := done + batch, done + batch[..i];
    assert all[|seen|] == batch[i];
    assert forall k | 0 <= k < |seen| :: seen[k] == all[k];
  }

  // ------------------------------------------------------------------ recording outcomes piece by piece

  lemma {:induction false} RecordedConcat(db: Db, a: seq<Outcome>, b: seq<Outcome>)
    ensures Recorded(db, a + b) == Recorded(Recorded(db, a), b)
    decreases |a|
  {
    if a == [] {
      assert a + b == b;
    } else {
      assert (a + b)[1..] == a[1..] + b;
      RecordedConcat(ExecuteAll(db, Pair(a[0])), a[1..], b);
    }
  }

  /** The log of a row that stays is only ever added to. */
  ghost predicate HistoryKept(before: Db, after: Db) {
    forall id | id in before.log && id in after.log :: before.log[id] <= after.log[id]
  }

  lemma OthersUnrecorded(db: Db, outcomes: seq<Outcome>, planned: seq<seq<Outcome>>, written: nat)
    requires db.rows.Keys == db.log.Keys && Consistent(db.rows, outcomes)
    requires Flatten(planned) == outcomes && written <= |planned|
    ensures var after := Recorded(db, Flatten(planned[..written])).rows;
            forall id | id in db.rows && (forall o <- outcomes :: o.id != id) :: id in after && after[id] == db.rows[id]
  {
    WrittenPartIsConsistent(db.rows, outcomes, planned, written);
    BeginningOf(planned, written);
    var part := Flatten(planned[..written]);
    forall id | id in db.rows && (forall o <- outcomes :: o.id != id)
      ensures var after := Recorded(db, part).rows; id in after && after[id] == db.rows[id]
    {
      OtherRowKept(db, part, id);
    }
  }

  /** Whatever part of the verdicts was written, rows without a verdict are as they were. */
  lemma OthersUnwritten(rows: Table, outcomes: seq<ServiceOutcome>, planned: seq<seq<ServiceOutcome>>, written: nat)
    requires Flatten(planned) == outcomes && written <= |planned|
    ensures var after := ApplyService(rows, Flatten(planned[..written]));
            forall id | id in rows && (forall o <- outcomes :: o.id != id) :: id in after && after[id] == rows[id]
  {
    hide ApplyService;
    BeginningOf(planned, written);
    forall id | id in rows && (forall o <- outcomes :: o.id != id)
      ensures var after := ApplyService(rows, Flatten(planned[..written])); id in after && after[id] == rows[id]
    {
      ApplyServiceOther(rows, Flatten(planned[..written]), id);
    }
  }

  lemma BeginningOf<T>(planned: seq<seq<T>>, written: nat)
    requires written <= |planned|
    ensures Flatten(planned[..written]) <= Flatten(planned)
    ensures forall x <- Flatten(planned[..written]) :: x in Flatten(planned)
  {
    assert planned == planned[..written] + planned[written..];
    FlattenConcat(planned[..written], planned[written..]);
  }

  lemma HistoryChain(a: Db, b: Db, c: Db)
    requires HistoryKept(a, b) && HistoryKept(b, c) && a.log.Keys <= b.log.Keys
    ensures HistoryKept(a, c)
  {
  }

  lemma SameLogKept(a: Db, b: Db, c: Db)
    requires HistoryKept(a, b) && c.log == b.log
    ensures HistoryKept(a, c)
  {
  }

  lemma WrittenPartIsConsistent(rows: Table, outcomes: seq<Outcome>, planned: seq<seq<Outcome>>, written: nat)
    requires Consistent(rows, outcomes) && Flatten(planned) == outcomes && written <= |planned|
    ensures Consistent(rows, Flatten(planned[..written]))
  {
    assert planned == planned[..written] + planned[written..];
    FlattenConcat(planned[..written], planned[written..]);
    PrefixConsistent(rows, Flatten(planned[..written]), Flatten(planned[written..]));
  }

  lemma {:induction false} RecordedExtends(db: Db, os: seq<Outcome>)
    requires db.rows.Keys == db.log.Keys && Consistent(db.rows, os)
    ensures var after := Recorded(db, os);
            after.rows.Keys == db.rows.Keys && after.log.Keys == db.log.Keys && HistoryKept(db, after)
    decreases |os|
  {
    if os != [] {
      hide Consistent;
      FirstIsListed(db.rows, os);
      PairEffect(db, os[0]);
      ConsistentTail(db.rows, os);
      RecordedExtends(ExecuteAll(db, Pair(os[0])), os[1..]);
    }
  }

  lemma FirstIsListed(rows: Table, os: seq<Outcome>)
    requires Consistent(rows, os) && os != []
    ensures os[0].id in rows
  {
    assert os[0] in os;
  }

  lemma PrefixConsistent(rows: Table, a: seq<Outcome>, b: seq<Outcome>)
    requires Consistent(rows, a + b)
    ensures Consistent(rows, a)
  {
    assert forall o <- a :: o in a + b;
    assert forall k | 0 <= k < |a| :: a[k] == (a + b)[k];
  }

  /** Recording the first outcomes of a consistent list leaves the rest consistent with the new table. */
  lemma {:induction false} RestStaysConsistent(db: Db, a: seq<Outcome>, b: seq<Outcome>)
    requires db.rows.Keys == db.log.Keys && Consistent(db.rows, a + b)
    ensures Consistent(db.rows, a)
    ensures Consistent(Recorded(db, a).rows, b)
    ensures Recorded(db, a).rows.Keys == db.rows.Keys
    ensures forall id | id in db.rows :: Recorded(db, a).rows[id].key == db.rows[id].key
    decreases |a|
  {
    PrefixConsistent(db.rows, a, b);
    if a == [] {
      assert a + b == b;
    } else {
      hide Consistent;
      assert (a + b)[1..] == a[1..] + b;
      PairEffect(db, a[0]);
      FirstIsListed(db.rows, a + b);
      ConsistentTail(db.rows, a + b);
      RestStaysConsistent(ExecuteAll(db, Pair(a[0])), a[1..], b);
    }
  }
}
