/**
 * The proxies repository over its table.
 *
 * Every `run` and every `batch` is one atomic write. Between two writes the process may stop, and a write may be
 * reported as failed whether or not it took effect; `Commit` is where both can happen.
 */
module Repository {
  import opened Common
  import opened Scoring
  import opened PoolTable
  import opened Listing
  import opened Ranking
  import opened RepositoryRules

  class ProxiesRepository {
    var rows: Table
    ghost var log: History

    ghost function State(): Db
      reads this
    {
      Db(rows, log)
    }

    ghost predicate Valid()
      reads this
    {
      Faithful(State()) && UniqueKeys(rows)
    }

    constructor ()
      ensures Valid() && rows == map[] && log == map[]
    {
      rows, log := map[], map[];
    }

    /** One atomic write: it takes effect entirely or not at all, and only `Done` tells that it did. */
    method Commit(rows': Table, ghost log': History) returns (fate: Fate)
      modifies this
      ensures (rows == rows' && log == log') || (fate != Done && State() == old(State()))
    {
      fate := Attempt();
      var applied: bool := *;
      if fate == Done || applied {
        rows, log := rows', log';
      }
    }

    /** Any database call may end in an error or with the process. */
    method Attempt() returns (fate: Fate) {
      var choice: int := *;
      fate := if choice == 0 then Done else if choice == 1 then Threw else Crashed;
    }

    // ---------------------------------------------------------------- status sweeps

    /** `UPDATE proxies SET ... WHERE ...`, with the number of rows it affected. */
    method Sweep(who: Row -> bool, how: Row -> Row) returns (affected: nat, fate: Fate)
      requires Valid()
      requires forall r :: CountersKept(r, how(r))
      modifies this
      ensures Valid() && log == old(log)
      ensures rows == UpdateWhere(old(rows), who, how) || (fate != Done && rows == old(rows))
      ensures affected == |Matching(old(rows), who)|
    {
      hide Faithful, UniqueKeys;
      var rows' := map id | id in rows :: if who(rows[id]) then how(rows[id]) else rows[id];
      var changed := set id | id in rows && who(rows[id]);
      affected := |changed|;
      StatementOn(rows, who, how, rows', changed);
      SweepKeepsFaithful(State(), rows');
      SameKeysStayUnique(rows, rows');
      fate := Commit(rows', log);
    }

    /** Claims rows chunk by chunk; wherever the call stops, whole chunks have been claimed and nothing of the next. */
    method MarkPending(ids: seq<nat>, cycle: string) returns (fate: Fate, ghost written: nat)
      requires Valid()
      modifies this
      ensures Valid() && log == old(log) && OnlyStatuses(old(rows), rows)
      ensures written <= |Chunks(ids, WRITE_CHUNK)|
      ensures rows == Claim(old(rows), ToSet(Flatten(Chunks(ids, WRITE_CHUNK)[..written])), cycle)
      ensures fate == Done ==> rows == Claim(old(rows), ToSet(ids), cycle)
      ensures fate == Done ==>
                rows == map id | id in old(rows) ::
                  var r := old(rows)[id];
                  if id in ids && (r.status.New? || r.status.Quarantined? || r.status.Active?)
                  then r.(status := Pending, lastCycle := Some(cycle)) else r
    {
      hide Faithful, UniqueKeys, Claim, OnlyStatuses, Flatten, ToSet, Chunks;
      var chunks := Chunked(ids, WRITE_CHUNK);
      fate, written := Done, 0;
      NothingClaimed(rows, chunks, cycle);
      for i := 0 to |chunks|
        invariant Valid() && log == old(log) && OnlyStatuses(old(rows), rows)
        invariant fate == Done && written == i && rows == Claim(old(rows), ToSet(Flatten(chunks[..i])), cycle)
      {
        ChunkClaimed(old(rows), chunks, i, cycle);
        ghost var before := rows;
        ghost var applied;
        fate, applied := ClaimChunk(chunks[i], cycle);
        OnlyStatusesOn(old(rows), before, rows);
        if applied {
          written := i + 1;
        }
        if fate != Done {
          return;
        }
      }
      assert chunks[..|chunks|] == chunks;
      ClaimMeans(old(rows), ids, cycle);
    }

    method ClaimChunk(ids: seq<nat>, cycle: string) returns (fate: Fate, ghost applied: bool)
      requires Valid()
      modifies this
      ensures Valid() && log == old(log) && OnlyStatuses(old(rows), rows)
      ensures rows == if applied then Claim(old(rows), ToSet(ids), cycle) else old(rows)
      ensures fate == Done ==> applied
    {
      var rows' := map id | id in rows ::
        if id in ids && rows[id].status in {New, Quarantined, Active}
        then rows[id].(status := Pending, lastCycle := Some(cycle)) else rows[id];
      ClaimsListed(rows, ids, cycle, rows');
      SweepKeepsFaithful(State(), rows');
      SameKeysStayUnique(rows, rows');
      fate := Commit(rows', log);
      applied := rows == rows';
    }

    method ReleaseOrphanedPending(cycle: string) returns (released: nat, fate: Fate)
      requires Valid()
      modifies this
      ensures Valid() && log == old(log) && OnlyStatuses(old(rows), rows)
      ensures fate == Done ==>
                rows == map id | id in old(rows) ::
                  var r := old(rows)[id];
                  if r.status.Pending? && r.lastCycle == Some(cycle) then r.(status := New) else r
      ensures released == |Matching(old(rows), ClaimedBy(cycle))|
      ensures rows == UpdateWhere(old(rows), ClaimedBy(cycle), Release()) || (fate != Done && rows == old(rows))
    {
      var who := (r: Row) => r.status == Pending && r.lastCycle == Some(cycle);
      var how := (r: Row) => r.(status := New);
      SameStatement(rows, who, how, ClaimedBy(cycle), Release());
      ReleasesMean(rows, cycle);
      released, fate := Sweep(who, how);
    }

    method ReleaseForeignPending(cycle: string) returns (released: nat, fate: Fate)
      requires Valid()
      modifies this
      ensures Valid() && log == old(log) && OnlyStatuses(old(rows), rows)
      ensures fate == Done ==>
                rows == map id | id in old(rows) ::
                  var r := old(rows)[id];
                  if r.status.Pending? && r.lastCycle != Some(cycle) then r.(status := New) else r
      ensures released == |Matching(old(rows), ClaimedElsewhere(cycle))|
      ensures rows == UpdateWhere(old(rows), ClaimedElsewhere(cycle), Release()) || (fate != Done && rows == old(rows))
    {
      var who := (r: Row) => r.status == Pending && (r.lastCycle == None || r.lastCycle != Some(cycle));
      var how := (r: Row) => r.(status := New);
      SameStatement(rows, who, how, ClaimedElsewhere(cycle), Release());
      ReleasesMean(rows, cycle);
      released, fate := Sweep(who, how);
    }

    method ExpireStale(ttlMinutes: int, now: int) returns (expired: nat, fate: Fate)
      requires Valid()
      modifies this
      ensures Valid() && log == old(log)
      ensures fate == Done ==>
                rows == map id | id in old(rows) ::
                  var r := old(rows)[id];
                  if r.status.Active? && (r.lastPassed.None? || r.lastPassed.value < now - ttlMinutes * 60_000)
                  then r.(status := Dead, validation := Unreachable) else r
      ensures expired == |Matching(old(rows), IsStale(Ago(now, ttlMinutes)))|
      ensures rows == UpdateWhere(old(rows), IsStale(Ago(now, ttlMinutes)), Expire()) || (fate != Done && rows == old(rows))
    {
      hide Faithful, UniqueKeys, UpdateWhere, Matching;
      var cutoff := now - ttlMinutes * 60_000;
      var who := (r: Row) => r.status == Active && (r.lastPassed == None || r.lastPassed.value < cutoff);
      var how := (r: Row) => r.(status := Dead, validation := Unreachable);
      SameStatement(rows, who, how, IsStale(cutoff), Expire());
      ExpiryMeans(rows, cutoff);
      expired, fate := Sweep(who, how);
    }

    method QuarantineFailures(maxFailures: int) returns (quarantined: nat, fate: Fate)
      requires Valid()
      modifies this
      ensures Valid() && log == old(log)
      ensures fate == Done ==>
                rows == map id | id in old(rows) ::
                  var r := old(rows)[id];
                  if r.status.Active? && r.failures >= maxFailures then r.(status := Quarantined) else r
      ensures quarantined == |Matching(old(rows), KeepsFailing(maxFailures))|
      ensures rows == UpdateWhere(old(rows), KeepsFailing(maxFailures), Quarantine()) || (fate != Done && rows == old(rows))
    {
      hide Faithful, UniqueKeys, UpdateWhere, Matching;
      var who := (r: Row) => r.status == Active && r.failures >= maxFailures;
      var how := (r: Row) => r.(status := Quarantined);
      SameStatement(rows, who, how, KeepsFailing(maxFailures), Quarantine());
      QuarantineMeans(rows, maxFailures);
      quarantined, fate := Sweep(who, how);
    }

    method EnforcePoolCapacity(maxActive: nat) returns (demoted: nat, fate: Fate)
      requires Valid()
      modifies this
      ensures Valid() && log == old(log)
      ensures fate == Done ==>
                rows == map id | id in old(rows) ::
                  if id in Overflow(old(rows), maxActive) then old(rows)[id].(status := Quarantined) else old(rows)[id]
      ensures fate == Done ==> demoted == |Overflow(old(rows), maxActive)|
      ensures rows == UpdateIds(old(rows), Overflow(old(rows), maxActive), Quarantine())
              || (fate != Done && rows == old(rows))
    {
      hide Faithful, UniqueKeys, StrictTotal, Listed, Slice, InOrder, ToSet, Overflow, UpdateIds, ActiveIds;
      demoted := 0;
      var active := set id | id in rows && rows[id].status == Active;
      CountsActive(rows, active);
      OverflowMeans(rows, maxActive);
      fate := Attempt();
      if |active| <= maxActive {
        NoOverflow(rows, maxActive, Quarantine());
        return;
      }
      if fate != Done {
        return;
      }
      var overflow := |active| - maxActive;
      OverflowIsListed(rows, maxActive);
      var worst := OrderBy(active, InOrder(WorstFirst, rows));
      var out := ToSet(Slice(worst, 0, overflow));
      demoted := |out|;
      fate := Demote(out);
    }

    method Demote(out: set<nat>) returns (fate: Fate)
      requires Valid()
      modifies this
      ensures Valid() && log == old(log)
      ensures rows == UpdateIds(old(rows), out, Quarantine()) || (fate != Done && rows == old(rows))
    {
      hide Faithful, UniqueKeys, UpdateIds;
      var rows' := map id | id in rows :: if id in out then rows[id].(status := Quarantined) else rows[id];
      BenchesOut(rows, out, rows');
      QuarantineKeepsCounters(rows, out);
      SweepKeepsFaithful(State(), rows');
      SameKeysStayUnique(rows, rows');
      fate := Commit(rows', log);
    }

    method CountActive() returns (count: nat)
      ensures count == |ActiveIds(rows)|
    {
      var active := set id | id in rows && rows[id].status == Active;
      CountsActive(rows, active);
      count := |active|;
    }

    // ---------------------------------------------------------------- discovery

    /**
     * Upserts the first candidate of each key. Wherever the call stops, whole batches have been upserted and nothing
     * of the next; new rows start with an empty log and no other log changes.
     */
    method UpsertCandidates(candidates: seq<Candidate>, cycle: string, now: int)
      returns (total: nat, inserted: nat, fate: Fate, ghost written: nat)
      requires Valid()
      modifies this
      ensures Valid()
      ensures log == ExtendedLog(old(log), rows) && old(log).Keys <= log.Keys
      ensures total == |FirstByKey(candidates)|
      ensures written <= |Chunks(FirstByKey(candidates), WRITE_CHUNK)|
      ensures Upserted(old(rows), rows, Flatten(Chunks(FirstByKey(candidates), WRITE_CHUNK)[..written]), cycle, now)
      ensures fate == Done ==> Rediscovered(old(rows), rows, FirstByKey(candidates), cycle, now)
      ensures fate == Done ==> Upserted(old(rows), rows, FirstByKey(candidates), cycle, now)
      ensures fate == Done ==> |rows| == old(|rows|) + inserted
    {
      hide Faithful, KnownTouched, OthersNew, HasKey, UniqueKeys, FirstByKey, Mentions, Rediscovered;
      var unique := Unique(candidates);
      FirstByKeyMeans(candidates);
      total, inserted, written := |unique|, 0, 0;
      UpsertNothing(rows, cycle, now);
      FaithfulKeys(State());
      ExtendedBySame(log, rows);
      ghost var planned := Chunks(unique, WRITE_CHUNK);
      assert Flatten(planned[..0]) == [];
      inserted, fate := CountInserted(unique);
      if fate != Done {
        return;
      }
      var batches := Chunked(unique, WRITE_CHUNK);
      for i := 0 to |batches|
        invariant Valid() && fate == Done && written == i
        invariant Upserted(old(rows), rows, Flatten(batches[..i]), cycle, now)
        invariant log == ExtendedLog(old(log), rows) && old(log).Keys <= log.Keys
      {
        FlattenAt(batches, i);
        DistinctKeysPart(Flatten(batches[..i]), batches[i], Flatten(batches[i + 1..]));
        ghost var before := log;
        ghost var applied;
        fate, applied := CommitUpserts(old(rows), Flatten(batches[..i]), batches[i], cycle, now);
        ExtendedTwice(old(log), before, rows);
        if applied {
          written := i + 1;
        }
        if fate != Done {
          return;
        }
      }
      assert batches[..|batches|] == batches;
      UpsertedMeans(old(rows), rows, unique, cycle, now);
    }

    /** The pre-count, one query for each chunk of keys. */
    method CountInserted(unique: seq<Candidate>) returns (inserted: nat, fate: Fate)
      ensures fate == Done ==> inserted == CountUnknown(rows, unique)
    {
      var chunks := Chunked(unique, UPSERT_CHUNK);
      inserted, fate := 0, Done;
      for i := 0 to |chunks|
        invariant fate == Done && inserted == CountUnknown(rows, Flatten(chunks[..i]))
      {
        FlattenAt(chunks, i);
        CountUnknownConcat(rows, Flatten(chunks[..i]), chunks[i]);
        fate := Attempt();
        if fate != Done {
          return;
        }
        var missing := CountMissing(chunks[i]);
        inserted := inserted + missing;
      }
      assert chunks[..|chunks|] == chunks;
    }

    method CommitUpserts(ghost start: Table, ghost done: seq<Candidate>, batch: seq<Candidate>, cycle: string, now: int)
      returns (fate: Fate, ghost applied: bool)
      requires Valid() && UniqueKeys(start)
      requires Upserted(start, rows, done, cycle, now) && DistinctKeys(done + batch)
      modifies this
      ensures Valid() && log == ExtendedLog(old(log), rows) && old(log).Keys <= log.Keys
      ensures if applied then Upserted(start, rows, done + batch, cycle, now) else rows == old(rows)
      ensures fate == Done ==> applied
    {
      hide Faithful, KnownTouched, OthersNew, HasKey, UniqueKeys;
      FaithfulKeys(State());
      ExtendedBySame(log, rows);
      var rows' := UpsertBatch(start, done, rows, batch, cycle, now);
      UpsertKeepsFaithful(start, State(), rows', done, done + batch, cycle, now);
      fate := Commit(rows', ExtendedLog(log, rows'));
      applied := rows == rows';
    }

    /** Key by key, the first candidate listed under it. */
    method Unique(candidates: seq<Candidate>) returns (unique: seq<Candidate>)
      ensures unique == FirstByKey(candidates)
    {
      unique := [];
      var keys: set<string> := {};
      for i := 0 to |candidates|
        invariant unique == FirstByKey(candidates[..i])
        invariant forall key :: key in keys <==> Mentions(unique, key)
      {
        assert candidates[..i + 1][..i] == candidates[..i];
        if candidates[i].key !in keys {
          MentionsAppend(unique, candidates[i]);
          keys := keys + {candidates[i].key};
          unique := unique + [candidates[i]];
        }
      }
      assert candidates[..|candidates|] == candidates;
    }

    /** The pre-count of keys the table does not know. */
    method CountMissing(unique: seq<Candidate>) returns (missing: nat)
      ensures missing == CountUnknown(rows, unique)
    {
      missing := 0;
      for i := 0 to |unique|
        invariant missing == CountUnknown(rows, unique[..i])
      {
        assert unique[..i + 1][..i] == unique[..i];
        var known := set id | id in rows && rows[id].key == unique[i].key;
        if known == {} {
          assert forall id | id in rows :: id !in known;
          missing := missing + 1;
        } else {
          var id :| id in known;
          assert HasKey(rows, unique[i].key);
        }
      }
      assert unique[..|unique|] == unique;
    }

    /** `INSERT ... ON CONFLICT (dedupe_key) DO UPDATE` for every candidate of one batch. */
    method UpsertBatch(ghost start: Table, ghost done: seq<Candidate>, mid: Table, batch: seq<Candidate>, cycle: string, now: int)
      returns (rows': Table)
      requires Upserted(start, mid, done, cycle, now) && DistinctKeys(done + batch)
      ensures Upserted(start, rows', done + batch, cycle, now) && mid.Keys <= rows'.Keys
    {
      rows' := mid;
      assert done + batch[..0] == done;
      for i := 0 to |batch|
        invariant Upserted(start, rows', done + batch[..i], cycle, now) && mid.Keys <= rows'.Keys
      {
        NextIsNew(done, batch, i);
        rows' := UpsertOne(start, done + batch[..i], rows', batch[i], cycle, now);
      }
      assert batch[..|batch|] == batch;
    }

    method UpsertOne(ghost start: Table, ghost seen: seq<Candidate>, mid: Table, c: Candidate, cycle: string, now: int)
      returns (rows': Table)
      requires Upserted(start, mid, seen, cycle, now) && !Mentions(seen, c.key)
      ensures Upserted(start, rows', seen + [c], cycle, now) && mid.Keys <= rows'.Keys
    {
      hide Upserted, HasKey, TouchKey, NewRow, Mentions;
      var known := set id | id in mid && mid[id].key == c.key;
      KnownIds(mid, c.key, known);
      if known == {} {
        FreeIdExists(mid);
        var id: nat :| id !in mid;
        UpsertNew(start, mid, id, seen, c, cycle, now);
        BlankRow(c, cycle, now);
        rows' := mid[id := Row(c.key, New, Unchecked, Untested, 0, None, c.anonymity, now, Some(cycle), None, None, None, 0, 0, 0)];
      } else {
        UpsertKnown(start, mid, seen, c, cycle, now);
        rows' := map id | id in mid ::
          if id in known then
            mid[id].(lastSeen := now, lastCycle := Some(cycle), status := if mid[id].status == Dead then New else mid[id].status)
          else mid[id];
        TouchesKnown(mid, c.key, known, cycle, now, rows');
      }
    }

    // ---------------------------------------------------------------- outcomes

    method BuildStatements(outcomes: seq<Outcome>) returns (statements: seq<Statement>)
      ensures statements == Statements(outcomes)
    {
      statements := [];
      for i := 0 to |outcomes|
        invariant statements == Statements(outcomes[..i])
      {
        var o := outcomes[i];
        statements := statements + [InsertResult(o.id, Check(o.at, o.reachable)), UpdateRow(o)];
        assert outcomes[..i + 1] == outcomes[..i] + [outcomes[i]];
        StatementsConcat(outcomes[..i], [outcomes[i]]);
        assert Statements([outcomes[i]]) == Pair(outcomes[i]);
      }
      assert outcomes[..|outcomes|] == outcomes;
    }

    /**
     * Writes connectivity results and the resulting row states. Wherever the call stops, whole chunks of outcomes
     * have been written and nothing of the next one, so the table is faithful.
     */
    method PersistValidationOutcomes(outcomes: seq<Outcome>) returns (fate: Fate, ghost written: nat)
      requires Valid() && Consistent(rows, outcomes)
      modifies this
      ensures Valid()
      ensures written <= |Chunks(outcomes, WRITE_CHUNK)|
      ensures State() == Recorded(old(State()), Flatten(Chunks(outcomes, WRITE_CHUNK)[..written]))
      ensures HistoryKept(old(State()), State()) && log.Keys == old(log.Keys)
      ensures forall id | id in old(rows) && (forall o <- outcomes :: o.id != id) :: id in rows && rows[id] == old(rows)[id]
      ensures forall t | Timely(old(log), t) && (forall o <- outcomes :: o.at == t) :: Timely(log, t)
      ensures fate == Done ==> State() == Recorded(old(State()), outcomes)
    {
      hide Faithful, UniqueKeys, Recorded, Consistent, HistoryKept, Timely, Chunks, Flatten, Statements;
      var statements := BuildStatements(outcomes);
      var chunks := Chunked(statements, WRITE_CHUNK * 2);
      ghost var planned := Chunks(outcomes, WRITE_CHUNK);
      PairsNeverSplit(outcomes, WRITE_CHUNK);
      ChunksCover(outcomes, WRITE_CHUNK);
      FaithfulKeys(State());
      fate, written := CommitChunks(chunks, planned);
      assert planned[..|planned|] == planned;
      WrittenPartIsConsistent(old(rows), outcomes, planned, written);
      RecordedExtends(old(State()), Flatten(planned[..written]));
      OthersUnrecorded(old(State()), outcomes, planned, written);
      BeginningOf(planned, written);
      forall t | Timely(old(log), t) && (forall o <- outcomes :: o.at == t) ensures Timely(log, t) {
        RecordedTimely(old(State()), Flatten(planned[..written]), t);
      }
    }

    method CommitChunks(chunks: seq<seq<Statement>>, ghost planned: seq<seq<Outcome>>)
      returns (fate: Fate, ghost written: nat)
      requires Valid() && Consistent(rows, Flatten(planned))
      requires |chunks| == |planned| && forall k | 0 <= k < |chunks| :: chunks[k] == Statements(planned[k])
      modifies this
      ensures Valid()
      ensures written <= |planned| && State() == Recorded(old(State()), Flatten(planned[..written]))
      ensures fate == Done ==> written == |planned|
    {
      fate, written := Done, 0;
      assert planned[0..] == planned;
      for i := 0 to |chunks|
        invariant Valid() && fate == Done && written == i
        invariant Consistent(rows, Flatten(planned[i..]))
        invariant State() == Recorded(old(State()), Flatten(planned[..i]))
      {
        FlattenAt(planned, i);
        RecordedConcat(old(State()), Flatten(planned[..i]), planned[i]);
        ghost var applied;
        fate, applied := CommitChunk(chunks[i], planned[i], Flatten(planned[i + 1..]));
        if applied {
          written := i + 1;
        }
        if fate != Done {
          return;
        }
      }
    }

    method CommitChunk(statements: seq<Statement>, ghost chunk: seq<Outcome>, ghost rest: seq<Outcome>)
      returns (fate: Fate, ghost applied: bool)
      requires Valid() && statements == Statements(chunk) && Consistent(rows, chunk + rest)
      modifies this
      ensures Valid()
      ensures State() == if applied then Recorded(old(State()), chunk) else old(State())
      ensures fate == Done ==> applied && Consistent(rows, rest)
    {
      BatchIsRecorded(State(), chunk);
      RowsOfBatch(State(), statements);
      RestStaysConsistent(State(), chunk, rest);
      RecordedKeepsFaithful(State(), chunk);
      ghost var db' := Recorded(State(), chunk);
      SameKeysStayUnique(rows, db'.rows);
      var rows' := ApplyAll(statements);
      fate := Commit(rows', db'.log);
      applied := State() == db';
    }

    /** The statements of one batch, applied to the table as it stands. */
    method ApplyAll(statements: seq<Statement>) returns (rows': Table)
      ensures rows' == ExecuteAllRows(rows, statements)
    {
      hide Updated;
      rows' := rows;
      assert statements[0..] == statements;
      for i := 0 to |statements|
        invariant ExecuteAllRows(rows', statements[i..]) == ExecuteAllRows(rows, statements)
      {
        assert statements[i..][1..] == statements[i + 1..];
        match statements[i] {
          case UpdateRow(o) =>
            if o.id in rows' {
              var r := WriteOutcome(rows'[o.id], o);
              rows' := rows'[o.id := r];
            }
          case _ =>
        }
      }
    }

    /** The `SET` list of a validation outcome. */
    method WriteOutcome(r: Row, o: Outcome) returns (r': Row)
      ensures r' == Updated(r, o)
    {
      r' := r.(status := o.status, latency := o.latency, lastChecked := Some(o.at), failures := o.failures,
      checks := r.checks + 1, score := o.score, service := o.service);
      if o.reachable {
        r' := r'.(validation := Reached, lastPassed := Some(o.at), passes := r.passes + 1);
      } else {
        r' := r'.(validation := Unreachable);
      }
    }

    /** Writes verdicts chunk by chunk; wherever the call stops, whole chunks have been written and nothing of the next. */
    method PersistServiceOutcomes(outcomes: seq<ServiceOutcome>) returns (fate: Fate, ghost written: nat)
      requires Valid()
      modifies this
      ensures Valid() && log == old(log) && OnlyStatuses(old(rows), rows)
      ensures written <= |Chunks(outcomes, WRITE_CHUNK)|
      ensures rows == ApplyService(old(rows), Flatten(Chunks(outcomes, WRITE_CHUNK)[..written]))
      ensures forall id | id in old(rows) && (forall o <- outcomes :: o.id != id) :: id in rows && rows[id] == old(rows)[id]
      ensures fate == Done ==> rows == ApplyService(old(rows), outcomes)
    {
      hide Faithful, UniqueKeys, ApplyService;
      var chunks := Chunked(outcomes, WRITE_CHUNK);
      fate, written := Done, 0;
      ApplyNothing(rows);
      assert Flatten(chunks[..0]) == [];
      ServiceKeepsCounters(rows, []);
      for i := 0 to |chunks|
        invariant Valid() && log == old(log) && OnlyStatuses(old(rows), rows)
        invariant fate == Done && written == i && rows == ApplyService(old(rows), Flatten(chunks[..i]))
      {
        FlattenAt(chunks, i);
        ApplyServiceConcat(old(rows), Flatten(chunks[..i]), chunks[i]);
        ghost var applied;
        fate, applied := CommitService(chunks[i]);
        if applied {
          written := i + 1;
        }
        if fate != Done {
          OthersUnwritten(old(rows), outcomes, chunks, written);
          return;
        }
      }
      assert chunks[..|chunks|] == chunks;
      OthersUnwritten(old(rows), outcomes, chunks, written);
    }

    method CommitService(chunk: seq<ServiceOutcome>) returns (fate: Fate, ghost applied: bool)
      requires Valid()
      modifies this
      ensures Valid() && log == old(log) && OnlyStatuses(old(rows), rows)
      ensures rows == if applied then ApplyService(old(rows), chunk) else old(rows)
      ensures fate == Done ==> applied
    {
      hide Faithful, UniqueKeys, ApplyService;
      var rows' := ApplyVerdicts(chunk);
      ServiceKeepsCounters(rows, chunk);
      SweepKeepsFaithful(State(), rows');
      SameKeysStayUnique(rows, rows');
      fate := Commit(rows', log);
      applied := rows == rows';
    }

    /** The updates of one batch of verdicts, applied to the table as it stands. */
    method ApplyVerdicts(chunk: seq<ServiceOutcome>) returns (rows': Table)
      ensures rows' == ApplyService(rows, chunk)
    {
      hide ApplyService;
      rows' := rows;
      ApplyNothing(rows);
      for i := 0 to |chunk|
        invariant rows' == ApplyService(rows, chunk[..i])
      {
        var o := chunk[i];
        assert chunk[..i + 1] == chunk[..i] + [o];
        ApplyServiceConcat(rows, chunk[..i], [o]);
        ApplyOne(rows', o);
        if o.id in rows' {
          rows' := rows'[o.id := rows'[o.id].(service := o.status, serviceChecked := Some(o.at), score := o.score, status := o.next)];
        }
      }
      assert chunk[..|chunk|] == chunk;
    }

    /** Retention: rows that died without ever passing are forgotten. */
    method PruneHistory(seenBefore: int) returns (fate: Fate)
      requires Valid()
      modifies this
      ensures Valid()
      ensures rows.Keys <= old(rows.Keys) && forall id | id in rows :: rows[id] == old(rows[id])
      ensures forall id | id in old(rows) :: var r := old(rows)[id];
                !(r.status.Dead? && r.lastPassed.None? && r.lastSeen < seenBefore) ==> id in rows
      ensures fate == Done ==> forall id | id in rows ::
                !(rows[id].status.Dead? && rows[id].lastPassed.None? && rows[id].lastSeen < seenBefore)
      ensures forall id | id in log :: id in old(log) && log[id] == old(log)[id]
      ensures HistoryKept(old(State()), State())
    {
      var rows' := map id |
        id in rows && !(rows[id].status == Dead && rows[id].lastSeen < seenBefore && rows[id].lastPassed == None) :: rows[id];
      fate := Commit(rows', map id | id in rows' :: log[id]);
    }

    // ---------------------------------------------------------------- reads

    method Select(ids: set<nat>, ord: Order, limit: int) returns (found: seq<Snapshot>)
      requires ids <= rows.Keys
      ensures Ids(found) == Top(rows, ids, ord, limit)
      ensures Current(rows, found)
    {
      hide StrictTotal, Listed, InOrder, Slice, Distinct, Ids;
      found := [];
      NoIds();
      RowsAreOrdered(ord, rows);
      TopIsPart(rows, ids, ord, limit);
      if limit > 0 {
        var listing := OrderBy(ids, InOrder(ord, rows));
        var top := Slice(listing, 0, limit);
        for i := 0 to |top|
          invariant Ids(found) == top[..i] && Current(rows, found)
        {
          OneMoreId(found, Snapshot(top[i], rows[top[i]]));
          found := found + [Snapshot(top[i], rows[top[i]])];
          assert top[..i + 1] == top[..i] + [top[i]];
        }
        assert top[..|top|] == top;
      }
    }

    method SelectValidationQueue(o: QueueOptions) returns (merged: seq<Snapshot>, fate: Fate)
      ensures Current(rows, merged)
      ensures Distinct(Ids(merged))
      ensures forall s <- merged :: Claimable(s.row)
      ensures fate == Done ==> Ids(merged) == QueueIds(rows, o) && IsQueue(rows, o, Ids(merged))
    {
      hide Top, Distinct, Ids, IsQueue;
      merged := [];
      NoIds();
      fate := Attempt();
      if fate != Done {
        return;
      }
      var cutoff := o.now - o.recheckAfterMinutes * 60_000;
      var asNew := set id | id in rows && rows[id].status == New;
      var benched := set id | id in rows && rows[id].status == Quarantined;
      var due := set id |
        id in rows && rows[id].status == Active && (rows[id].lastChecked == None || rows[id].lastChecked.value < cutoff);
      assert asNew == Fresh(rows) && benched == Benched(rows) && due == Due(rows, cutoff);
      var unchecked := Select(asNew, OldestId, o.newLimit);
      var quarantined := Select(benched, LongestUnchecked, o.quarantineLimit);
      var staleActive := Select(due, LongestUnchecked, o.recheckLimit);
      var all := unchecked + quarantined + staleActive;
      IdsConcat(unchecked + quarantined, staleActive);
      IdsConcat(unchecked, quarantined);
      QueueIsDistinct(rows, o);
      QueueInTurn(rows, o);
      merged := WithoutRepeats(all);
      IdsAt(merged);
    }

    /** Keeps the first snapshot of each id; a list without repeats is returned unchanged. */
    method WithoutRepeats(all: seq<Snapshot>) returns (merged: seq<Snapshot>)
      ensures Distinct(Ids(all)) ==> merged == all
      ensures Distinct(Ids(merged))
      ensures forall s <- merged :: s in all
    {
      hide Distinct, Ids, ToSet;
      merged := [];
      NoIds();
      var seen: set<nat> := {};
      for i := 0 to |all|
        invariant seen == ToSet(Ids(merged)) && Distinct(Ids(merged))
        invariant Distinct(Ids(all)) ==> merged == all[..i]
        invariant forall s <- merged :: s in all
      {
        if all[i].id !in seen {
          OneMoreDistinct(merged, all[i]);
          seen := seen + {all[i].id};
          merged := merged + [all[i]];
        } else if merged == all[..i] {
          RepeatedId(all, i);
        }
      }
      assert all[..|all|] == all;
    }

    /**
     * One page of the public pool, and how many entries the query has in all: no entry ranks below a later one, equals
     * go by id, and rows that passed the service are in front if it is preferred.
     */
    method ReadPool(q: PoolQuery) returns (entries: seq<nat>, total: nat)
      ensures IsPage(rows, q, entries)
      ensures entries == Slice(PoolListing(rows, q), q.offset, q.limit)
      ensures total == |PoolListing(rows, q)| == |Eligible(rows, q)|
    {
      hide StrictTotal, IsPage, Distinct;
      var cutoff := q.now - q.ttlMinutes * 60_000;
      var eligible := set id |
        && id in rows && rows[id].status == Active && rows[id].score >= q.minScore
        && rows[id].lastPassed != None && rows[id].lastPassed.value >= cutoff
        && (q.columns != None ==> q.columns.value(id))
        && (q.maxLatency != None ==> rows[id].latency != None && rows[id].latency.value <= q.maxLatency.value)
        && (q.service == Required ==> rows[id].service == Passed);
      assert eligible == Eligible(rows, q);
      var order := if q.service == Preferred then ServiceThenBest else BestFirst;
      RowsAreOrdered(order, rows);
      var listing := OrderBy(eligible, InOrder(order, rows));
      entries := Slice(listing, q.offset, q.limit);
      total := |eligible|;
      PageOfListing(rows, q);
    }
  }
}
