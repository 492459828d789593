/**
 * The proxies table, its validation log, and what the counters on a row mean.
 *
 * A row carries running counters so that no reader has to aggregate the log. This module defines what those
 * counters must equal, in terms of the append-only log, and shows that every kind of statement keeps it so.
 */
module PoolTable {
  import opened Common
  import opened Scoring

  datatype Status = New | Pending | Active | Quarantined | Dead

  datatype ValidationStatus = Unchecked | Reached | Unreachable

  datatype Row = Row(
    key: string,
    status: Status,
    validation: ValidationStatus,
    service: ServiceStatus,
    score: Score,
    latency: Option<int>,
    anonymity: Anonymity,
    lastSeen: int,
    lastCycle: Option<string>,
    lastChecked: Option<int>,
    lastPassed: Option<int>,
    serviceChecked: Option<int>,
    failures: int,
    checks: int,
    passes: int)

  type Table = map<nat, Row>

  /** One row of `validation_results`. */
  datatype Check = Check(at: int, passed: bool)

  /** Every check ever recorded for the rows now in the table; retention pruning does not shorten it. */
  type History = map<nat, seq<Check>>

  datatype Db = Db(rows: Table, log: History)

  // ------------------------------------------------------------------ what the counters mean

  ghost function Passes(h: seq<Check>): nat {
    if h == [] then 0 else Passes(h[..|h| - 1]) + (if h[|h| - 1].passed then 1 else 0)
  }

  /** Length of the run of failures the history ends with. */
  ghost function TrailingFailures(h: seq<Check>): nat {
    if h == [] || h[|h| - 1].passed then 0 else TrailingFailures(h[..|h| - 1]) + 1
  }

  /** Time of the most recent pass. */
  ghost function LastPass(h: seq<Check>): Option<int> {
    if h == [] then None
    else if h[|h| - 1].passed then Some(h[|h| - 1].at)
    else LastPass(h[..|h| - 1])
  }

  ghost predicate CountersMatch(r: Row, h: seq<Check>) {
    && r.checks == |h|
    && r.passes == Passes(h)
    && r.failures == TrailingFailures(h)
    && r.lastPassed == LastPass(h)
  }

  /** The table invariant: every counter is what the log says it is. */
  ghost predicate Faithful(db: Db) {
    && db.rows.Keys == db.log.Keys
    && forall id | id in db.rows :: CountersMatch(db.rows[id], db.log[id])
  }

  lemma FaithfulKeys(db: Db)
    requires Faithful(db)
    ensures db.rows.Keys == db.log.Keys
  {
  }

  /** The defining property of `TrailingFailures` and `LastPass`, in terms of positions of the log. */
  lemma {:induction false} TrailingRun(h: seq<Check>)
    ensures TrailingFailures(h) <= |h|
    ensures forall k | |h| - TrailingFailures(h) <= k < |h| :: !h[k].passed
    ensures TrailingFailures(h) < |h| ==>
              var last := h[|h| - 1 - TrailingFailures(h)];
              last.passed && LastPass(h) == Some(last.at)
    ensures TrailingFailures(h) == |h| ==> LastPass(h).None?
  {
    if h != [] && !h[|h| - 1].passed {
      TrailingRun(h[..|h| - 1]);
    }
  }

  ghost predicate InTimeOrder(h: seq<Check>) { forall i, j | 0 <= i < j < |h| :: h[i].at <= h[j].at }

  /** When checks are logged in the order of their times, the last pass is the latest one. */
  lemma {:induction false} LastPassIsLatest(h: seq<Check>)
    requires InTimeOrder(h)
    ensures LastPass(h).Some? <==> exists k :: 0 <= k < |h| && h[k].passed
    ensures LastPass(h).Some? ==> forall k | 0 <= k < |h| && h[k].passed :: h[k].at <= LastPass(h).value
  {
    if h != [] {
      var n := |h| - 1;
      LastPassIsLatest(h[..n]);
      assert forall k | 0 <= k < n :: h[k] == h[..n][k];
      if !h[n].passed && LastPass(h).Some? {
        var k :| 0 <= k < |h[..n]| && h[..n][k].passed;
        assert h[k].passed;
      }
    }
  }

  /** The time of the latest pass of a log, if it has one. */
  ghost predicate IsLatestPass(t: Option<int>, h: seq<Check>) {
    if t.None? then forall k | 0 <= k < |h| :: !h[k].passed
    else && (exists k :: 0 <= k < |h| && h[k].passed && h[k].at == t.value)
         && forall k | 0 <= k < |h| && h[k].passed :: h[k].at <= t.value
  }

  /** Every log is in the order of its times, and none runs ahead of `until`. */
  ghost predicate Timely(log: History, until: int) {
    forall id | id in log :: InTimeOrder(log[id]) && forall k | 0 <= k < |log[id]| :: log[id][k].at <= until
  }

  /** So while logs are in time order, every row holds the time of its latest pass. */
  lemma RowsHoldLatestPass(db: Db, until: int)
    requires Faithful(db) && Timely(db.log, until)
    ensures forall id | id in db.rows :: IsLatestPass(db.rows[id].lastPassed, db.log[id])
  {
    forall id | id in db.rows ensures IsLatestPass(db.rows[id].lastPassed, db.log[id]) {
      var h := db.log[id];
      assert CountersMatch(db.rows[id], h);
      LastPassIsLatest(h);
      TrailingRun(h);
      if LastPass(h).Some? {
        assert h[|h| - 1 - TrailingFailures(h)].passed;
      }
    }
  }

  lemma TimelyLater(log: History, t: int, u: int)
    requires Timely(log, t) && t <= u
    ensures Timely(log, u)
  {
  }

  // ------------------------------------------------------------------ UPDATE ... WHERE

  ghost function UpdateWhere(rows: Table, who: Row -> bool, how: Row -> Row): Table {
    map id | id in rows :: if who(rows[id]) then how(rows[id]) else rows[id]
  }

  ghost function Matching(rows: Table, who: Row -> bool): set<nat> {
    set id | id in rows && who(rows[id])
  }

  ghost function UpdateIds(rows: Table, ids: set<nat>, how: Row -> Row): Table {
    map id | id in rows :: if id in ids then how(rows[id]) else rows[id]
  }

  /** A row change that touches neither identity nor any counter. */
  ghost predicate CountersKept(r: Row, s: Row) {
    && s.key == r.key && s.checks == r.checks && s.passes == r.passes
    && s.failures == r.failures && s.lastPassed == r.lastPassed
  }

  /** Sweeps and claims rewrite statuses only, so they leave a faithful table faithful. */
  lemma SweepKeepsFaithful(db: Db, rows': Table)
    requires Faithful(db)
    requires rows'.Keys == db.rows.Keys
    requires forall id | id in db.rows :: CountersKept(db.rows[id], rows'[id])
    ensures Faithful(Db(rows', db.log))
  {
    forall id | id in rows' ensures CountersMatch(rows'[id], db.log[id]) {
      assert CountersMatch(db.rows[id], db.log[id]);
    }
  }

  // ------------------------------------------------------------------ statements and atomic batches

  /** A planned write for one validated proxy. */
  datatype Outcome = Outcome(
    id: nat,
    at: int,
    reachable: bool,
    latency: Option<int>,
    status: Status,
    failures: int,
    score: Score,
    service: ServiceStatus)

  datatype Statement =
    | InsertResult(id: nat, check: Check)
    | UpdateRow(outcome: Outcome)

  ghost function Updated(r: Row, o: Outcome): Row {
    r.(status := o.status,
    validation := if o.reachable then Reached else Unreachable,
    latency := o.latency,
    lastChecked := Some(o.at),
    lastPassed := if o.reachable then Some(o.at) else r.lastPassed,
    failures := o.failures,
    checks := r.checks + 1,
    passes := r.passes + (if o.reachable then 1 else 0),
    score := o.score,
    service := o.service)
  }

  ghost function ExecuteRows(rows: Table, s: Statement): Table {
    match s
    case InsertResult(_, _) => rows
    case UpdateRow(o) => if o.id in rows then rows[o.id := Updated(rows[o.id], o)] else rows
  }

  ghost function ExecuteLog(log: History, s: Statement): History {
    match s
    case InsertResult(id, c) => if id in log then log[id := log[id] + [c]] else log
    case UpdateRow(_) => log
  }

  ghost function Execute(db: Db, s: Statement): Db {
    Db(ExecuteRows(db.rows, s), ExecuteLog(db.log, s))
  }

  /** The effect of a batch that is applied as a whole. */
  ghost function ExecuteAll(db: Db, ss: seq<Statement>): Db
    decreases |ss|
  {
    if ss == [] then db else ExecuteAll(Execute(db, ss[0]), ss[1..])
  }

  ghost function ExecuteAllRows(rows: Table, ss: seq<Statement>): Table {
    if ss == [] then rows else ExecuteAllRows(ExecuteRows(rows, ss[0]), ss[1..])
  }

  lemma {:induction false} RowsOfBatch(db: Db, ss: seq<Statement>)
    ensures ExecuteAll(db, ss).rows == ExecuteAllRows(db.rows, ss)
    decreases |ss|
  {
    if ss != [] {
      RowsOfBatch(Execute(db, ss[0]), ss[1..]);
    }
  }

  lemma {:induction false} ExecuteAllConcat(db: Db, a: seq<Statement>, b: seq<Statement>)
    ensures ExecuteAll(db, a + b) == ExecuteAll(ExecuteAll(db, a), b)
    decreases |a|
  {
    if a == [] {
      assert a + b == b;
    } else {
      assert (a + b)[1..] == a[1..] + b;
      ExecuteAllConcat(Execute(db, a[0]), a[1..], b);
    }
  }

  // ------------------------------------------------------------------ validation outcomes

  /** The statement pair written for one outcome. */
  ghost function Pair(o: Outcome): seq<Statement> {
    [InsertResult(o.id, Check(o.at, o.reachable)), UpdateRow(o)]
  }

  ghost function Statements(os: seq<Outcome>): seq<Statement> {
    if os == [] then [] else Pair(os[0]) + Statements(os[1..])
  }

  lemma {:induction false} StatementsConcat(a: seq<Outcome>, b: seq<Outcome>)
    ensures Statements(a + b) == Statements(a) + Statements(b)
    ensures |Statements(a)| == 2 * |a|
  {
    if a == [] {
      assert a + b == b;
    } else {
      assert (a + b)[1..] == a[1..] + b;
      StatementsConcat(a[1..], b);
    }
  }

  /** Each outcome is about a row of the table, counts on from that row's current failures, and comes once. */
  ghost predicate Consistent(rows: Table, os: seq<Outcome>) {
    && (forall o <- os :: o.id in rows && o.failures == if o.reachable then 0 else rows[o.id].failures + 1)
    && (forall i, j :: 0 <= i < j < |os| ==> os[i].id != os[j].id)
  }

  /** One insert-and-update pair changes one row and one log, by the same check. */
  lemma PairEffect(db: Db, o: Outcome)
    requires o.id in db.rows && o.id in db.log
    ensures ExecuteAll(db, Pair(o)) ==
            Db(db.rows[o.id := Updated(db.rows[o.id], o)], db.log[o.id := db.log[o.id] + [Check(o.at, o.reachable)]])
  {
    var ss := Pair(o);
    var db1 := Execute(db, ss[0]);
    assert ss[1..] == [ss[1]];
    assert ExecuteAll(db1, [ss[1]]) == ExecuteAll(Execute(db1, ss[1]), []);
  }

  lemma CountersExtend(r: Row, h: seq<Check>, o: Outcome)
    requires CountersMatch(r, h)
    requires o.failures == if o.reachable then 0 else r.failures + 1
    ensures CountersMatch(Updated(r, o), h + [Check(o.at, o.reachable)])
  {
    var h' := h + [Check(o.at, o.reachable)];
    assert h'[..|h'| - 1] == h;
  }

  lemma PairKeepsFaithful(db: Db, o: Outcome)
    requires Faithful(db)
    requires o.id in db.rows && o.failures == if o.reachable then 0 else db.rows[o.id].failures + 1
    ensures Faithful(ExecuteAll(db, Pair(o)))
  {
    PairEffect(db, o);
    var db' := ExecuteAll(db, Pair(o));
    CountersExtend(db.rows[o.id], db.log[o.id], o);
    forall id | id in db'.rows ensures CountersMatch(db'.rows[id], db'.log[id]) {
      if id != o.id {
        assert CountersMatch(db.rows[id], db.log[id]);
      }
    }
  }

  /** What a list of outcomes makes of the table, outcome by outcome. */
  ghost function Recorded(db: Db, os: seq<Outcome>): Db
    decreases |os|
  {
    if os == [] then db else Recorded(ExecuteAll(db, Pair(os[0])), os[1..])
  }

  lemma {:induction false} BatchIsRecorded(db: Db, os: seq<Outcome>)
    ensures ExecuteAll(db, Statements(os)) == Recorded(db, os)
    decreases |os|
  {
    if os != [] {
      ExecuteAllConcat(db, Pair(os[0]), Statements(os[1..]));
      BatchIsRecorded(ExecuteAll(db, Pair(os[0])), os[1..]);
    }
  }

  lemma ConsistentTail(rows: Table, os: seq<Outcome>)
    requires os != [] && Consistent(rows, os)
    ensures forall p <- os[1..] :: p.id != os[0].id
    ensures Consistent(rows[os[0].id := Updated(rows[os[0].id], os[0])], os[1..])
  {
    forall p <- os[1..] ensures p.id != os[0].id && p in os {
      var k :| 0 <= k < |os[1..]| && os[1..][k] == p;
      assert os[k + 1] == p;
    }
  }

  /** A batch of pairs leaves the table faithful ... */
  lemma {:induction false} RecordedKeepsFaithful(db: Db, os: seq<Outcome>)
    requires Faithful(db) && Consistent(db.rows, os)
    ensures Faithful(Recorded(db, os))
    decreases |os|
  {
    if os != [] {
      PairKeepsFaithful(db, os[0]);
      PairEffect(db, os[0]);
      ConsistentTail(db.rows, os);
      RecordedKeepsFaithful(ExecuteAll(db, Pair(os[0])), os[1..]);
    }
  }

  /** ... applies each outcome to the row it found, ... */
  lemma {:induction false} PlannedRowUpdated(db: Db, os: seq<Outcome>, k: nat)
    requires db.rows.Keys == db.log.Keys && Consistent(db.rows, os) && k < |os|
    ensures os[k].id in Recorded(db, os).rows
    ensures Recorded(db, os).rows[os[k].id] == Updated(db.rows[os[k].id], os[k])
    decreases |os|
  {
    var db' := ExecuteAll(db, Pair(os[0]));
    PairEffect(db, os[0]);
    ConsistentTail(db.rows, os);
    if k == 0 {
      OtherRowKept(db', os[1..], os[0].id);
    } else {
      PlannedRowUpdated(db', os[1..], k - 1);
      assert os[1..][k - 1] == os[k];
    }
  }

  /** ... and changes no other row. */
  lemma {:induction false} OtherRowKept(db: Db, os: seq<Outcome>, id: nat)
    requires db.rows.Keys == db.log.Keys && Consistent(db.rows, os)
    requires id in db.rows && forall o <- os :: o.id != id
    ensures id in Recorded(db, os).rows && Recorded(db, os).rows[id] == db.rows[id]
    decreases |os|
  {
    if os != [] {
      PairEffect(db, os[0]);
      ConsistentTail(db.rows, os);
      assert forall o <- os[1..] :: o in os;
      OtherRowKept(ExecuteAll(db, Pair(os[0])), os[1..], id);
    }
  }

  /**
   * Cutting the statement list into chunks of an even size never separates an insert from its update: the chunks
   * are exactly the statement lists of chunks of outcomes.
   */
  lemma {:induction false} PairsNeverSplit(os: seq<Outcome>, size: nat)
    requires 0 < size
    ensures |Chunks(Statements(os), 2 * size)| == |Chunks(os, size)|
    ensures forall k | 0 <= k < |Chunks(os, size)| ::
              Chunks(Statements(os), 2 * size)[k] == Statements(Chunks(os, size)[k])
    decreases |os|
  {
    hide Chunks, Statements;
    if |os| > size {
      StatementsHalves(os, size);
      FirstChunkFirst(os, size);
      FirstChunkFirst(Statements(os), 2 * size);
      PairsNeverSplit(os[size..], size);
    } else {
      OneBatch(os, size);
    }
  }

  lemma StatementsHalves(os: seq<Outcome>, n: nat)
    requires n <= |os|
    ensures |Statements(os)| == 2 * |os|
    ensures Statements(os)[..2 * n] == Statements(os[..n]) && Statements(os)[2 * n..] == Statements(os[n..])
  {
    hide Statements;
    assert os == os[..n] + os[n..];
    StatementsConcat(os, []);
    StatementsConcat(os[..n], os[n..]);
  }

  lemma OneBatch(os: seq<Outcome>, size: nat)
    requires 0 < size && |os| <= size
    ensures Chunks(os, size) == (if os == [] then [] else [os])
    ensures Chunks(Statements(os), 2 * size) == (if os == [] then [] else [Statements(os)])
  {
    StatementsConcat(os, []);
  }

  /** An insert without its update leaves the counters of its row behind the log. */
  lemma HalfPairBreaksFaith(db: Db, o: Outcome)
    requires Faithful(db) && o.id in db.rows
    ensures !Faithful(ExecuteAll(db, [Pair(o)[0]]))
  {
    var insert := Pair(o)[0];
    var db' := Execute(db, insert);
    assert [insert][1..] == [];
    assert ExecuteAll(db, [insert]) == ExecuteAll(db', []) == db';
    assert CountersMatch(db.rows[o.id], db.log[o.id]);
    assert !CountersMatch(db'.rows[o.id], db'.log[o.id]);
  }

  lemma OddPrefix(os: seq<Outcome>, half: nat)
    requires half < |os|
    ensures |Statements(os)| == 2 * |os|
    ensures Statements(os)[..2 * half + 1] == Statements(os[..half]) + [Pair(os[half])[0]]
  {
    StatementsHalves(os, half);
    var b := os[half..];
    assert Statements(b) == Pair(os[half]) + Statements(b[1..]);
    assert Statements(os)[2 * half] == Statements(os)[2 * half..][0] == Pair(os[half])[0];
  }

  lemma PrefixIsConsistent(rows: Table, os: seq<Outcome>, n: nat)
    requires Consistent(rows, os) && n <= |os|
    ensures Consistent(rows, os[..n])
  {
    assert forall o <- os[..n] :: o in os;
  }

  /**
   * With any odd chunk size some pair is split as soon as the outcomes fill a chunk, and a crash after that chunk
   * leaves a table that is not faithful.
   */
  lemma OddChunksSplitPairs(db: Db, os: seq<Outcome>, half: nat)
    requires Faithful(db) && Consistent(db.rows, os) && half < |os|
    ensures var first := Chunks(Statements(os), 2 * half + 1)[0];
            first == Statements(os[..half]) + [Pair(os[half])[0]] && !Faithful(ExecuteAll(db, first))
  {
    OddPrefix(os, half);
    PrefixIsConsistent(db.rows, os, half);
    RecordedKeepsFaithful(db, os[..half]);
    BatchIsRecorded(db, os[..half]);
    RecordedKeepsRows(db, os[..half]);
    assert os[half] in os;
    ExecuteAllConcat(db, Statements(os[..half]), [Pair(os[half])[0]]);
    HalfPairBreaksFaith(Recorded(db, os[..half]), os[half]);
  }

  /** A check that comes after all others keeps its log in time order. */
  lemma CheckKeepsTimely(log: History, id: nat, c: Check, t: int)
    requires Timely(log, t) && id in log && forall k | 0 <= k < |log[id]| :: log[id][k].at <= c.at
    requires c.at <= t
    ensures Timely(log[id := log[id] + [c]], t)
  {
  }

  /** Outcomes planned at a time no log has passed keep every log in time order. */
  lemma {:induction false} RecordedTimely(db: Db, os: seq<Outcome>, t: int)
    requires db.rows.Keys == db.log.Keys && Consistent(db.rows, os)
    requires Timely(db.log, t) && forall o <- os :: o.at == t
    ensures Timely(Recorded(db, os).log, t)
    decreases |os|
  {
    if os != [] {
      hide Timely;
      var o := os[0];
      assert o in os;
      PairEffect(db, o);
      ConsistentTail(db.rows, os);
      NoneLater(db.log, o.id, t);
      CheckKeepsTimely(db.log, o.id, Check(o.at, o.reachable), t);
      RecordedTimely(ExecuteAll(db, Pair(o)), os[1..], t);
    }
  }

  lemma NoneLater(log: History, id: nat, t: int)
    requires Timely(log, t) && id in log
    ensures forall k | 0 <= k < |log[id]| :: log[id][k].at <= t
  {
  }

  lemma {:induction false} RecordedKeepsRows(db: Db, os: seq<Outcome>)
    requires db.rows.Keys == db.log.Keys && Consistent(db.rows, os)
    ensures Recorded(db, os).rows.Keys == db.rows.Keys
    decreases |os|
  {
    if os != [] {
      assert os[0] in os;
      PairEffect(db, os[0]);
      ConsistentTail(db.rows, os);
      RecordedKeepsRows(ExecuteAll(db, Pair(os[0])), os[1..]);
    }
  }
}
