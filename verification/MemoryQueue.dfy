/** What has become of every job a queue ever accepted. */
module JobLedger {
  import opened Common

  /** A job on its way: the number it was accepted under, what it asks for, and the attempt it is on. */
  datatype Job = Job(ticket: nat, work: int, attempt: int)

  datatype Place = Queued | InFlight | Processed | Dropped | Cleared

  /** An accepted job: where it is, the attempt it was sent at, how often it was handed to a handler. */
  datatype Entry = Entry(place: Place, sentAt: int, delivered: nat)

  type Ledger = seq<Entry>

  /** How often a job sent at attempt `sentAt` may be delivered. */
  ghost function Allowed(sentAt: int, maxAttempts: int): nat { Max(1, maxAttempts - sentAt + 1) }

  ghost predicate Within(book: Ledger, maxAttempts: int) {
    forall t | 0 <= t < |book| :: book[t].delivered <= Allowed(book[t].sentAt, maxAttempts)
  }

  ghost function Count(book: Ledger, p: Place): nat {
    if book == [] then 0 else Count(book[..|book| - 1], p) + if book[|book| - 1].place == p then 1 else 0
  }

  ghost function Shift(p: Place, from: Place, to: Place, n: int): int { if p == to then n else if p == from then -n else 0 }

  /** `n` jobs went from one place to another. */
  ghost predicate Shifted(before: Ledger, after: Ledger, from: Place, to: Place, n: int) {
    forall p: Place :: Count(after, p) == Count(before, p) + Shift(p, from, to, n)
  }

  ghost predicate SameTicket(a: Job, b: Job) { a.ticket == b.ticket }

  ghost predicate Apart(jobs: seq<Job>) { forall i, j | 0 <= i < j < |jobs| :: !SameTicket(jobs[i], jobs[j]) }

  /** The entry of a job that has been delivered `ahead` times more than its attempt number says. */
  ghost predicate Stands(book: Ledger, job: Job, place: Place, ahead: nat, maxAttempts: int) {
    job.ticket < |book|
    && var e := book[job.ticket];
       && e.place == place
       && e.delivered == job.attempt - e.sentAt + ahead
       && (job.attempt == e.sentAt || job.attempt <= maxAttempts)
  }

  ghost predicate Listed(book: Ledger, jobs: seq<Job>, place: Place, ahead: nat, maxAttempts: int) {
    Apart(jobs) && forall i | 0 <= i < |jobs| :: Stands(book, jobs[i], place, ahead, maxAttempts)
  }

  ghost predicate Names(jobs: seq<Job>, t: int) { exists i :: 0 <= i < |jobs| && jobs[i].ticket == t }

  /** Jobs that are done with stay as they are, and so do jobs in the hands of others. */
  ghost predicate Untouched(before: Ledger, after: Ledger, mine: seq<Job>) {
    |before| <= |after|
    && forall t | 0 <= t < |before| ::
         !before[t].place.Queued? && !(before[t].place.InFlight? && Names(mine, t)) ==> after[t] == before[t]
  }

  /** Every accepted job is in exactly one place. */
  lemma {:induction false} EveryJobIsSomewhere(book: Ledger)
    ensures |book| == Count(book, Queued) + Count(book, InFlight) + Count(book, Processed) + Count(book, Dropped) + Count(book, Cleared)
  {
    if book != [] {
      EveryJobIsSomewhere(book[..|book| - 1]);
    }
  }

  lemma {:induction false} CountUpdate(book: Ledger, t: nat, e: Entry, p: Place)
    requires t < |book|
    ensures Count(book[t := e], p)
            == Count(book, p) - (if book[t].place == p then 1 else 0) + if e.place == p then 1 else 0
  {
    var n := |book| - 1;
    var changed := book[t := e];
    if t == n {
      assert changed[..n] == book[..n];
    } else {
      assert changed[..n] == book[..n][t := e];
      CountUpdate(book[..n], t, e, p);
    }
  }

  lemma CountAppend(book: Ledger, e: Entry, p: Place)
    ensures Count(book + [e], p) == Count(book, p) + if e.place == p then 1 else 0
  {
    assert (book + [e])[..|book|] == book;
  }

  // ------------------------------------------------------------------ moving jobs

  ghost function Step(e: Entry, to: Place): Entry {
    Entry(to, e.sentAt, e.delivered + if to.InFlight? then 1 else 0)
  }

  /** Every one of `jobs` moves on; handing a job to a handler counts as a delivery. */
  ghost function Moved(book: Ledger, jobs: seq<Job>, to: Place): Ledger
    requires forall i | 0 <= i < |jobs| :: jobs[i].ticket < |book|
    ensures |Moved(book, jobs, to)| == |book|
    decreases |jobs|
  {
    if jobs == [] then book
    else Moved(book[jobs[0].ticket := Step(book[jobs[0].ticket], to)], jobs[1..], to)
  }

  lemma {:induction false} MovedAt(book: Ledger, jobs: seq<Job>, to: Place, t: nat)
    requires Apart(jobs) && t < |book| && forall i | 0 <= i < |jobs| :: jobs[i].ticket < |book|
    ensures Moved(book, jobs, to)[t] == if Names(jobs, t) then Step(book[t], to) else book[t]
    decreases |jobs|
  {
    if jobs != [] {
      var first := jobs[0].ticket;
      var rest := jobs[1..];
      MovedAt(book[first := Step(book[first], to)], rest, to, t);
      if i :| 0 <= i < |rest| && rest[i].ticket == t {
        assert jobs[i + 1].ticket == t;
        assert !SameTicket(jobs[0], jobs[i + 1]);
      }
      if i :| 0 <= i < |jobs| && jobs[i].ticket == t {
        assert i == 0 || rest[i - 1].ticket == t;
      }
    }
  }

  lemma {:induction false} MovedCounts(book: Ledger, jobs: seq<Job>, from: Place, ahead: nat, to: Place, maxAttempts: int, p: Place)
    requires Listed(book, jobs, from, ahead, maxAttempts) && from != to
    ensures Count(Moved(book, jobs, to), p)
            == Count(book, p) - (if p == from then |jobs| else 0) + if p == to then |jobs| else 0
    decreases |jobs|
  {
    if jobs != [] {
      var first := jobs[0].ticket;
      var e := Step(book[first], to);
      CountUpdate(book, first, e, p);
      ListedRest(book, jobs, from, ahead, e, maxAttempts);
      MovedCounts(book[first := e], jobs[1..], from, ahead, to, maxAttempts, p);
    }
  }

  lemma ListedRest(book: Ledger, jobs: seq<Job>, place: Place, ahead: nat, e: Entry, maxAttempts: int)
    requires Listed(book, jobs, place, ahead, maxAttempts) && jobs != []
    ensures Listed(book[jobs[0].ticket := e], jobs[1..], place, ahead, maxAttempts)
  {
    var rest := jobs[1..];
    forall i | 0 <= i < |rest| ensures Stands(book[jobs[0].ticket := e], rest[i], place, ahead, maxAttempts) {
      assert rest[i] == jobs[i + 1] && !SameTicket(jobs[0], jobs[i + 1]);
    }
    forall i, j | 0 <= i < j < |rest| ensures !SameTicket(rest[i], rest[j]) {
      assert rest[i] == jobs[i + 1] && rest[j] == jobs[j + 1];
    }
  }

  /** The failed jobs of a batch that have attempts left, each on its next attempt, in order. */
  ghost function Retries(batch: seq<Job>, results: seq<bool>, maxAttempts: int): seq<Job>
    requires |results| == |batch|
    decreases |batch|
  {
    if batch == [] then []
    else
      var n := |batch| - 1;
      Retries(batch[..n], results[..n], maxAttempts)
      + if !results[n] && batch[n].attempt < maxAttempts then [batch[n].(attempt := batch[n].attempt + 1)] else []
  }

  /** Job `k` of a batch failed and has attempts left; `again` is its next attempt. */
  ghost predicate IsRetry(batch: seq<Job>, results: seq<bool>, maxAttempts: int, k: int, again: Job)
    requires |results| == |batch|
  {
    0 <= k < |batch| && !results[k] && batch[k].attempt < maxAttempts && again == batch[k].(attempt := batch[k].attempt + 1)
  }

  lemma IsRetryOfMore(batch: seq<Job>, results: seq<bool>, maxAttempts: int, k: int, again: Job)
    requires |results| == |batch| && batch != []
    ensures var n := |batch| - 1;
            IsRetry(batch, results, maxAttempts, k, again)
            <==> if k == n then !results[n] && batch[n].attempt < maxAttempts && again == batch[n].(attempt := batch[n].attempt + 1)
                 else IsRetry(batch[..n], results[..n], maxAttempts, k, again)
  {
  }

  /** Who is retried: exactly the failed jobs with attempts left, on their next attempt. */
  lemma {:induction false} RetriesMean(batch: seq<Job>, results: seq<bool>, maxAttempts: int, again: Job)
    requires |results| == |batch|
    ensures again in Retries(batch, results, maxAttempts) <==> exists k :: IsRetry(batch, results, maxAttempts, k, again)
    decreases |batch|
  {
    if batch != [] {
      var n := |batch| - 1;
      RetriesMean(batch[..n], results[..n], maxAttempts, again);
      if k :| IsRetry(batch[..n], results[..n], maxAttempts, k, again) {
        IsRetryOfMore(batch, results, maxAttempts, k, again);
        IsRetryOfMore(batch, results, maxAttempts, n, again);
        assert IsRetry(batch, results, maxAttempts, k, again);
      }
      if k :| IsRetry(batch, results, maxAttempts, k, again) {
        IsRetryOfMore(batch, results, maxAttempts, k, again);
      }
      IsRetryOfMore(batch, results, maxAttempts, n, again);
    } else {
      assert forall k :: !IsRetry(batch, results, maxAttempts, k, again);
    }
  }

  ghost function Successes(results: seq<bool>): nat {
    if results == [] then 0 else Successes(results[..|results| - 1]) + if results[|results| - 1] then 1 else 0
  }

  lemma NothingExamined(batch: seq<Job>, results: seq<bool>, maxAttempts: int)
    requires |results| == |batch|
    ensures batch[0..] == batch && Retries(batch[..0], results[..0], maxAttempts) == []
    ensures Successes(results[..0]) == 0 && Work(batch[..0], maxAttempts) == 0 == Work([], maxAttempts)
  {
  }

  lemma OneMoreResult(batch: seq<Job>, results: seq<bool>, i: nat, maxAttempts: int)
    requires |results| == |batch| && i < |batch|
    ensures batch[i..] == [batch[i]] + batch[i + 1..]
    ensures Work(batch[..i + 1], maxAttempts) == Work(batch[..i], maxAttempts) + Remaining(batch[i], maxAttempts)
    ensures Successes(results[..i + 1]) == Successes(results[..i]) + if results[i] then 1 else 0
    ensures Retries(batch[..i + 1], results[..i + 1], maxAttempts)
            == Retries(batch[..i], results[..i], maxAttempts)
               + if !results[i] && batch[i].attempt < maxAttempts then [batch[i].(attempt := batch[i].attempt + 1)] else []
  {
    assert batch[..i + 1][..i] == batch[..i] && results[..i + 1][..i] == results[..i];
  }

  // ------------------------------------------------------------------ how much work is left

  /** How many jobs the first batch has: as many as the limit, the budget and the backlog admit. */
  ghost function FirstBatch(backlog: nat, concurrency: int, maxJobs: Option<int>): nat {
    Min(backlog, if maxJobs.Some? then Max(0, Min(Max(1, concurrency), maxJobs.value)) else Max(1, concurrency))
  }

  /** Deliveries a job can still have. */
  ghost function Remaining(job: Job, maxAttempts: int): nat { Allowed(job.attempt, maxAttempts) }

  ghost function Work(jobs: seq<Job>, maxAttempts: int): nat {
    if jobs == [] then 0 else Work(jobs[..|jobs| - 1], maxAttempts) + Remaining(jobs[|jobs| - 1], maxAttempts)
  }

  lemma WorkAppend(jobs: seq<Job>, job: Job, maxAttempts: int)
    ensures Work(jobs + [job], maxAttempts) == Work(jobs, maxAttempts) + Remaining(job, maxAttempts)
  {
    assert (jobs + [job])[..|jobs|] == jobs;
  }

  lemma {:induction false} WorkSplit(a: seq<Job>, b: seq<Job>, maxAttempts: int)
    ensures Work(a + b, maxAttempts) == Work(a, maxAttempts) + Work(b, maxAttempts)
    decreases |b|
  {
    if b == [] {
      assert a + b == a;
    } else {
      var n := |b| - 1;
      assert (a + b)[..|a + b| - 1] == a + b[..n];
      WorkSplit(a, b[..n], maxAttempts);
    }
  }

  lemma {:induction false} WorkAtLeast(jobs: seq<Job>, maxAttempts: int)
    ensures Work(jobs, maxAttempts) >= |jobs|
  {
    if jobs != [] {
      WorkAtLeast(jobs[..|jobs| - 1], maxAttempts);
    }
  }
}

/** The in-process queue. */
module MemoryQueues {
  import opened Common
  import opened JobLedger

  datatype Summary = Summary(processed: nat, failed: nat, dropped: nat, enqueued: nat)

  class MemoryQueue {
    const capacity: int
    const maxAttempts: int
    var queue: seq<Job>
    var dropped: nat
    /** Numbers jobs as they are accepted: a job's identity. */
    var accepted: nat
    /** One entry for every job ever accepted. */
    ghost var book: Ledger
    /** Jobs turned away because the backlog was full. */
    ghost var refused: nat

    ghost predicate Valid() reads this {
      && Listed(book, queue, Queued, 0, maxAttempts)
      && Count(book, Queued) == |queue| <= Max(0, capacity)
      && Within(book, maxAttempts)
      && dropped == refused + Count(book, Dropped)
      && accepted == |book|
    }

    /** Every accepted job is done, lost, waiting, in a handler's hands or cleared, and was never delivered too often. */
    lemma Conserved()
      requires Valid()
      ensures accepted == Count(book, Processed) + (dropped - refused) + |queue| + Count(book, InFlight) + Count(book, Cleared)
      ensures forall t | 0 <= t < |book| && book[t].sentAt == 1 :: book[t].delivered <= Max(1, maxAttempts)
    {
      EveryJobIsSomewhere(book);
    }

    constructor (capacity: int, maxAttempts: Option<int>)
      ensures Valid() && book == [] && queue == [] && refused == 0
      ensures this.capacity == capacity && this.maxAttempts == maxAttempts.GetOr(2)
    {
      this.capacity, this.maxAttempts := capacity, maxAttempts.GetOr(2);
      queue, dropped, accepted, book, refused := [], 0, 0, [], 0;
    }

    /** A job without an attempt number is on its first. */
    method Send(work: int, attempt: Option<int>, wellFormed: bool) returns (ok: bool)
      requires Valid()
      modifies this
      ensures Valid()
      ensures ok <==> wellFormed && |old(queue)| < capacity
      ensures ok ==> book == old(book) + [Entry(Queued, attempt.GetOr(1), 0)]
                           && queue == old(queue) + [Job(|old(book)|, work, attempt.GetOr(1))] && refused == old(refused)
      ensures !ok ==> book == old(book) && queue == old(queue) && refused == old(refused) + if wellFormed then 1 else 0
    {
      if !wellFormed {
        return false;
      }
      if |queue| >= capacity {
        dropped, refused := dropped + 1, refused + 1;
        return false;
      }
      ghost var e := Entry(Queued, attempt.GetOr(1), 0);
      CountAppend(book, e, Queued);
      CountAppend(book, e, Dropped);
      queue := queue + [Job(accepted, work, attempt.GetOr(1))];
      accepted, book := accepted + 1, book + [e];
      return true;
    }

    /** Hands the oldest jobs over to a consumer. */
    method Splice(count: nat) returns (batch: seq<Job>)
      requires Valid()
      modifies this
      ensures Valid() && old(queue) == batch + queue && |batch| == Min(count, |old(queue)|)
      ensures Listed(book, batch, InFlight, 1, maxAttempts)
      ensures Untouched(old(book), book, batch) && |book| == |old(book)|
      ensures Shifted(old(book), book, Queued, InFlight, |batch|)
      ensures refused == old(refused) && dropped == old(dropped)
    {
      var n := Min(count, |queue|);
      batch := queue[..n];
      SpliceMoves(book, queue, n, maxAttempts);
      book := Moved(book, batch, InFlight);
      queue := queue[n..];
    }

    /** Records what the handlers made of a batch, and puts retries back at the tail while there is room. */
    method Settle(batch: seq<Job>, results: seq<bool>) returns (processed: nat, failed: nat)
      requires Valid() && Listed(book, batch, InFlight, 1, maxAttempts) && |results| == |batch|
      modifies this
      ensures Valid() && Untouched(old(book), book, batch) && |book| == |old(book)| && refused == old(refused)
      ensures processed == Successes(results) && processed + failed == |batch|
      ensures var again := Retries(batch, results, maxAttempts);
              queue == old(queue) + again[..Min(|again|, Max(0, capacity - |old(queue)|))]
      ensures Count(book, InFlight) == Count(old(book), InFlight) - |batch|
      ensures Count(book, Processed) == Count(old(book), Processed) + processed
      ensures Count(book, Cleared) == Count(old(book), Cleared)
      ensures Work(queue, maxAttempts) + |batch| <= Work(old(queue), maxAttempts) + Work(batch, maxAttempts)
    {
      hide Stands, Retries, Successes, Work, Untouched;
      var retryable: seq<Job>;
      ghost var lost;
      retryable, processed, failed, lost := Examine(batch, results);
      Requeue(old(book), batch, retryable, processed, lost);
    }

    /** Sorts out the results: done, to be retried, or lost. */
    method Examine(batch: seq<Job>, results: seq<bool>) returns (retryable: seq<Job>, processed: nat, failed: nat, ghost lost: nat)
      requires Valid() && Listed(book, batch, InFlight, 1, maxAttempts) && |results| == |batch|
      modifies `book, `dropped
      ensures processed == Successes(results) && processed + failed == |batch| == processed + lost + |retryable|
      ensures retryable == Retries(batch, results, maxAttempts)
      ensures Settling(book, queue, retryable, [], maxAttempts)
      ensures Within(book, maxAttempts) && dropped == old(dropped) + lost && |book| == |old(book)|
      ensures Progress(old(book), book, batch, retryable)
      ensures Counted(old(book), book, processed, lost, 0)
      ensures Work(retryable, maxAttempts) + |batch| <= Work(batch, maxAttempts)
    {
      hide Count, Stands, Names, Apart, Step, Work, Within, Untouched, Listed, Settling, Progress, Counted;
      hide Retries, Successes;
      NothingExamined(batch, results, maxAttempts);
      NothingSettled(book, queue, batch, maxAttempts);
      retryable, processed, failed, lost := [], 0, 0, 0;
      var i := 0;
      assert batch[0..] == batch && batch[..0] == [];
      while i < |batch|
        invariant 0 <= i <= |batch| && processed + failed == i && processed + lost + |retryable| == i
        invariant |book| == |old(book)|
        invariant processed == Successes(results[..i]) && retryable == Retries(batch[..i], results[..i], maxAttempts)
        invariant Settling(book, queue, retryable, batch[i..], maxAttempts)
        invariant Within(book, maxAttempts) && dropped == old(dropped) + lost
        invariant Progress(old(book), book, batch, retryable)
        invariant Counted(old(book), book, processed, lost, 0)
        invariant Work(retryable, maxAttempts) + i <= Work(batch[..i], maxAttempts)
      {
        var job := batch[i];
        OneMoreResult(batch, results, i, maxAttempts);
        if results[i] {
          FinishOne(old(book), book, queue, retryable, batch, i, Processed, maxAttempts);
          PlaceChanges(old(book), book, job.ticket, Processed, processed, lost, 0, maxAttempts);
          processed := processed + 1;
          book := book[job.ticket := book[job.ticket].(place := Processed)];
        } else {
          failed := failed + 1;
          if job.attempt < maxAttempts {
            RetryOne(old(book), book, queue, retryable, batch, i, maxAttempts);
            WorkAppend(retryable, job.(attempt := job.attempt + 1), maxAttempts);
            retryable := retryable + [job.(attempt := job.attempt + 1)];
          } else {
            FinishOne(old(book), book, queue, retryable, batch, i, Dropped, maxAttempts);
            PlaceChanges(old(book), book, job.ticket, Dropped, processed, lost, 0, maxAttempts);
            dropped, lost := dropped + 1, lost + 1;
            book := book[job.ticket := book[job.ticket].(place := Dropped)];
          }
        }
        i := i + 1;
      }
      assert batch[..i] == batch && results[..i] == results && batch[i..] == [];
    }

    /** Puts retries back at the tail while there is room. */
    method Requeue(ghost before: Ledger, ghost batch: seq<Job>, retryable: seq<Job>, ghost processed: nat, ghost alreadyLost: nat)
      requires Settling(book, queue, retryable, [], maxAttempts)
      requires Within(book, maxAttempts) && accepted == |book| == |before|
      requires Progress(before, book, batch, retryable) && Counted(before, book, processed, alreadyLost, 0)
      requires processed + alreadyLost + |retryable| == |batch|
      requires |queue| == Count(before, Queued) && |queue| <= Max(0, capacity) && dropped == refused + Count(book, Dropped)
      modifies `queue, `dropped, `book
      ensures Valid() && Untouched(before, book, batch) && |book| == |before|
      ensures Count(book, InFlight) == Count(before, InFlight) - |batch|
      ensures Count(book, Processed) == Count(before, Processed) + processed && Count(book, Cleared) == Count(before, Cleared)
      ensures queue == old(queue) + retryable[..Min(|retryable|, Max(0, capacity - |old(queue)|))]
      ensures Work(queue, maxAttempts) <= Work(old(queue), maxAttempts) + Work(retryable, maxAttempts)
    {
      hide Stands, Names, Apart, Step, Count, Listed, Untouched, Work, Within;
      ghost var lost, back := alreadyLost, 0;
      var k := 0;
      assert retryable[0..] == retryable && retryable[..0] == [];
      while k < |retryable|
        invariant 0 <= k <= |retryable| && processed + lost + back + |retryable| - k == |batch|
        invariant |book| == |before|
        invariant back == Min(k, Max(0, capacity - |old(queue)|)) && queue == old(queue) + retryable[..back]
        invariant Settling(book, queue, retryable[k..], [], maxAttempts)
        invariant Within(book, maxAttempts) && dropped == refused + Count(book, Dropped)
        invariant Progress(before, book, batch, retryable[k..])
        invariant Counted(before, book, processed, lost, back)
        invariant |queue| == Count(before, Queued) + back && |queue| <= Max(0, capacity)
        invariant Work(queue, maxAttempts) <= Work(old(queue), maxAttempts) + Work(retryable[..k], maxAttempts)
      {
        var job := retryable[k];
        assert retryable[k..][0] == job && retryable[k..][1..] == retryable[k + 1..];
        assert retryable[..k + 1] == retryable[..k] + [job];
        WorkAppend(retryable[..k], job, maxAttempts);
        if |queue| < capacity {
          RequeueOne(before, book, queue, retryable[k..], batch, true, maxAttempts);
          PlaceChanges(before, book, job.ticket, Queued, processed, lost, back, maxAttempts);
          WorkAppend(queue, job, maxAttempts);
          queue, back := queue + [job], back + 1;
          book := book[job.ticket := book[job.ticket].(place := Queued)];
        } else {
          RequeueOne(before, book, queue, retryable[k..], batch, false, maxAttempts);
          PlaceChanges(before, book, job.ticket, Dropped, processed, lost, back, maxAttempts);
          dropped, lost := dropped + 1, lost + 1;
          book := book[job.ticket := book[job.ticket].(place := Dropped)];
        }
        k := k + 1;
      }
      assert retryable[..k] == retryable;
    }

    method Close()
      requires Valid()
      modifies this
      ensures Valid() && queue == []
      ensures Untouched(old(book), book, []) && |book| == |old(book)|
      ensures Shifted(old(book), book, Queued, Cleared, |old(queue)|)
      ensures refused == old(refused) && dropped == old(dropped)
    {
      CloseMoves(book, queue, maxAttempts);
      book := Moved(book, queue, Cleared);
      queue := [];
    }

    /** Sends jobs until they are all sent; a full backlog refuses the rest one by one. */
    method SendMany(works: seq<int>) returns (sent: nat)
      requires Valid()
      modifies this
      ensures Valid() && Untouched(old(book), book, [])
      ensures sent == Min(|works|, Max(0, Max(0, capacity) - |old(queue)|)) && |queue| == |old(queue)| + sent
      ensures maxAttempts <= 2 ==> Work(queue, maxAttempts) <= Work(old(queue), maxAttempts) + 2 * sent
      ensures Settled(old(book), book)
    {
      hide Count, Work, Listed, Within;
      sent := 0;
      for i := 0 to |works|
        invariant Valid() && Untouched(old(book), book, []) && Settled(old(book), book)
        invariant sent == Min(i, Max(0, Max(0, capacity) - |old(queue)|)) && |queue| == |old(queue)| + sent
        invariant maxAttempts <= 2 ==> Work(queue, maxAttempts) <= Work(old(queue), maxAttempts) + 2 * sent
      {
        ghost var was, backlog := book, queue;
        var ok := Send(works[i], None, true);
        if ok {
          Appended(was, Entry(Queued, 1, 0));
          WorkAppend(backlog, queue[|backlog|], maxAttempts);
          sent := sent + 1;
        }
      }
    }

    /** While handlers run, others may send at most `sends` jobs, or close the queue. */
    method Interfere(ghost batch: seq<Job>, sends: nat) returns (left: nat)
      requires Valid() && Listed(book, batch, InFlight, 1, maxAttempts)
      modifies this
      ensures Valid() && Listed(book, batch, InFlight, 1, maxAttempts)
      ensures Untouched(old(book), book, []) && Settled(old(book), book) && left <= sends
      ensures left == sends ==> Work(queue, maxAttempts) <= Work(old(queue), maxAttempts)
    {
      hide Count, Within, Listed, Stands, Apart;
      left := sends;
      while true
        invariant Valid() && Listed(book, batch, InFlight, 1, maxAttempts)
        invariant Untouched(old(book), book, []) && Settled(old(book), book) && left <= sends
        invariant left == sends ==> Work(queue, maxAttempts) <= Work(old(queue), maxAttempts)
        decreases left
      {
        var work: int, attempt: Option<int>, wellFormed: bool, closes: bool, stops: bool := *, *, *, *, *;
        ghost var was := book;
        if closes {
          Close();
          InHandsOf(was, book, batch, maxAttempts);
        }
        if stops || left == 0 {
          return;
        }
        was := book;
        var ok := Send(work, attempt, wellFormed);
        if ok {
          Appended(was, Entry(Queued, attempt.GetOr(1), 0));
        }
        InHandsOf(was, book, batch, maxAttempts);
        left := left - 1;
      }
    }

    /** One batch: taken off the queue, handled while others may send, and settled. */
    method Round(count: nat, sends: nat) returns (processed: nat, failed: nat, left: nat)
      requires Valid()
      modifies this
      ensures Valid() && Untouched(old(book), book, []) && left <= sends
      ensures Count(book, InFlight) == Count(old(book), InFlight)
      ensures Count(book, Processed) == Count(old(book), Processed) + processed
      ensures processed + failed == Min(count, |old(queue)|)
      ensures left == sends ==> Work(queue, maxAttempts) + processed + failed <= Work(old(queue), maxAttempts)
    {
      hide Count, Work, Within;
      ghost var book0, queue0 := book, queue;
      var batch := Splice(count);
      assert queue0[..|batch|] == batch;
      BatchWasQueued(book0, queue0, |batch|, maxAttempts);
      WorkSplit(batch, queue, maxAttempts);
      ghost var book1 := book;
      left := Interfere(batch, sends);
      ghost var book2 := book;
      var results: seq<bool> := *;
      if |results| != |batch| {
        results := seq(|batch|, k => false);
      }
      processed, failed := Settle(batch, results);
      RoundUntouched(book0, book1, book2, book, batch);
    }

    /**
     * Processes the backlog in batches, while others may send at most `sends` more jobs. Handler failures are
     * arbitrary; the signal is found aborted after round `abortedAt` and later, if ever. A batch is handed out before
     * the signal is first looked at, and every batch is as large as the limit, the budget and the backlog admit.
     */
    method Consume(concurrency: int, maxJobs: Option<int>, sends: nat, abortedAt: Option<nat>) returns (summary: Summary, rounds: nat)
      requires Valid()
      modifies this
      ensures Valid() && Untouched(old(book), book, []) && Count(book, InFlight) == Count(old(book), InFlight)
      ensures Count(book, Processed) == Count(old(book), Processed) + summary.processed
      ensures summary.dropped == dropped && summary.enqueued == |old(queue)|
      ensures maxJobs.Some? ==> summary.processed + summary.failed <= Max(0, maxJobs.value)
      ensures sends == 0 ==> summary.processed + summary.failed + Work(queue, maxAttempts) <= Work(old(queue), maxAttempts)
      ensures summary.processed + summary.failed >= FirstBatch(|old(queue)|, concurrency, maxJobs)
      ensures rounds <= summary.processed + summary.failed
      ensures queue == [] || (maxJobs.Some? && summary.processed + summary.failed >= maxJobs.value)
              || (abortedAt.Some? && 0 < rounds && abortedAt.value <= rounds)
      ensures abortedAt.Some? && 0 < rounds ==> rounds <= Max(1, abortedAt.value)
      ensures abortedAt.None? && maxJobs.None? ==> queue == []
      ensures abortedAt.None? && sends == 0 && maxJobs.Some? && maxJobs.value >= Work(old(queue), maxAttempts) ==> queue == []
    {
      hide Count, Listed, Within, Untouched, MemoryQueue.Valid, Work;
      UntouchedAtFirst(book);
      var processed: nat, failed: nat, enqueued: nat := 0, 0, |queue|;
      var limit := Max(1, concurrency);
      var budget := maxJobs;
      var left: nat := sends;
      var aborted := false;
      rounds := 0;
      while |queue| > 0 && (budget.None? || budget.value > 0) && !aborted
        invariant Valid() && Untouched(old(book), book, []) && Count(book, InFlight) == Count(old(book), InFlight)
        invariant Count(book, Processed) == Count(old(book), Processed) + processed
        invariant budget.Some? == maxJobs.Some?
        invariant maxJobs.Some? ==> budget.value == maxJobs.value - processed - failed && budget.value >= Min(0, maxJobs.value)
        invariant left <= sends
        invariant sends == 0 ==> processed + failed + Work(queue, maxAttempts) <= Work(old(queue), maxAttempts)
        invariant if rounds == 0 then processed == failed == 0 && queue == old(queue) && left == sends
                  else processed + failed >= FirstBatch(enqueued, concurrency, maxJobs)
        invariant rounds <= processed + failed
        invariant aborted <==> 0 < rounds && abortedAt.Some? && abortedAt.value <= rounds
        invariant abortedAt.Some? ==> rounds <= Max(1, abortedAt.value)
        decreases left, Work(queue, maxAttempts), !aborted
      {
        ghost var before := book;
        var p, f;
        p, f, left := Round(if budget.Some? then Min(limit, budget.value) else limit, left);
        budget := if budget.Some? then Some(budget.value - p - f) else None;
        UntouchedTwice(old(book), before, book);
        processed, failed := processed + p, failed + f;
        rounds := rounds + 1;
        aborted := abortedAt.Some? && abortedAt.value <= rounds;
      }
      if sends == 0 && maxJobs.Some? && maxJobs.value >= Work(old(queue), maxAttempts) {
        WorkAtLeast(queue, maxAttempts);
      }
      summary := Summary(processed, failed, dropped, enqueued);
    }

    /**
     * What a stage of the pipeline does with its jobs: with at most two deliveries each, a budget of twice their
     * number always leaves the queue empty, unless the signal is aborted.
     */
    method SendAndDrain(works: seq<int>, concurrency: int, abortedAt: Option<nat>) returns (summary: Summary)
      requires Valid() && queue == [] && maxAttempts <= 2
      modifies this
      ensures Valid() && (abortedAt.None? ==> queue == [])
      ensures summary.processed + summary.failed <= 2 * |works|
    {
      var sent := SendMany(works);
      var rounds: nat;
      summary, rounds := Consume(concurrency, Some(|works| * 2), 0, abortedAt);
    }
  }

  /** Nothing but the backlog changed. */
  ghost predicate Settled(before: Ledger, after: Ledger) {
    forall p: Place | p.InFlight? || p.Processed? || p.Dropped? :: Count(after, p) == Count(before, p)
  }

  lemma Appended(book: Ledger, e: Entry)
    requires e.place.Queued?
    ensures Untouched(book, book + [e], []) && Settled(book, book + [e])
  {
    forall p: Place | p.InFlight? || p.Processed? || p.Dropped? ensures Count(book + [e], p) == Count(book, p) {
      CountAppend(book, e, p);
    }
  }

  /** What is in somebody's hands stays there, whatever others do. */
  lemma InHandsOf(before: Ledger, after: Ledger, batch: seq<Job>, maxAttempts: int)
    requires Listed(before, batch, InFlight, 1, maxAttempts) && Untouched(before, after, [])
    ensures Listed(after, batch, InFlight, 1, maxAttempts)
  {
    forall i | 0 <= i < |batch| ensures Stands(after, batch[i], InFlight, 1, maxAttempts) {
      assert Stands(before, batch[i], InFlight, 1, maxAttempts);
    }
  }

  lemma BatchWasQueued(book: Ledger, queue: seq<Job>, n: nat, maxAttempts: int)
    requires Listed(book, queue, Queued, 0, maxAttempts) && n <= |queue|
    ensures forall i | 0 <= i < n :: queue[..n][i].ticket < |book| && book[queue[..n][i].ticket].place.Queued?
  {
    forall i | 0 <= i < n ensures queue[..n][i].ticket < |book| && book[queue[..n][i].ticket].place.Queued? {
      assert Stands(book, queue[i], Queued, 0, maxAttempts);
    }
  }

  lemma RoundUntouched(a: Ledger, b: Ledger, c: Ledger, d: Ledger, batch: seq<Job>)
    requires Untouched(a, b, batch) && Untouched(b, c, []) && Untouched(c, d, batch)
    requires forall i | 0 <= i < |batch| :: batch[i].ticket < |a| && a[batch[i].ticket].place.Queued?
    ensures Untouched(a, d, [])
  {
  }

  lemma UntouchedAtFirst(a: Ledger)
    ensures Untouched(a, a, [])
  {
  }

  lemma UntouchedTwice(a: Ledger, b: Ledger, c: Ledger)
    requires Untouched(a, b, []) && Untouched(b, c, [])
    ensures Untouched(a, c, [])
  {
  }

  lemma SpliceMoves(book: Ledger, queue: seq<Job>, n: nat, maxAttempts: int)
    requires Listed(book, queue, Queued, 0, maxAttempts) && n <= |queue| && Within(book, maxAttempts)
    ensures Listed(book, queue[..n], Queued, 0, maxAttempts)
    ensures var after := Moved(book, queue[..n], InFlight);
            && Listed(after, queue[..n], InFlight, 1, maxAttempts)
            && Listed(after, queue[n..], Queued, 0, maxAttempts)
            && Untouched(book, after, queue[..n]) && Within(after, maxAttempts)
            && Shifted(book, after, Queued, InFlight, n)
  {
    hide Moved, Count;
    var batch, rest := queue[..n], queue[n..];
    var after := Moved(book, batch, InFlight);
    forall t: nat | t < |book| ensures after[t] == if Names(batch, t) then Step(book[t], InFlight) else book[t] {
      MovedAt(book, batch, InFlight, t);
    }
    forall p: Place ensures Count(after, p) == Count(book, p) + Shift(p, Queued, InFlight, n) {
      MovedCounts(book, batch, Queued, 0, InFlight, maxAttempts, p);
    }
    forall i | 0 <= i < |batch| ensures Stands(after, batch[i], InFlight, 1, maxAttempts) {
      assert batch[i] == queue[i] && Stands(book, queue[i], Queued, 0, maxAttempts);
      assert Names(batch, batch[i].ticket);
    }
    forall i | 0 <= i < |rest| ensures Stands(after, rest[i], Queued, 0, maxAttempts) {
      assert rest[i] == queue[n + i] && Stands(book, queue[n + i], Queued, 0, maxAttempts);
      forall k | 0 <= k < |batch| ensures batch[k].ticket != rest[i].ticket {
        assert batch[k] == queue[k] && !SameTicket(queue[k], queue[n + i]);
      }
    }
  }

  lemma CloseMoves(book: Ledger, queue: seq<Job>, maxAttempts: int)
    requires Listed(book, queue, Queued, 0, maxAttempts) && Within(book, maxAttempts)
    ensures var after := Moved(book, queue, Cleared);
            && Untouched(book, after, []) && Within(after, maxAttempts)
            && Shifted(book, after, Queued, Cleared, |queue|)
  {
    var after := Moved(book, queue, Cleared);
    forall t: nat | t < |book| ensures after[t] == if Names(queue, t) then Step(book[t], Cleared) else book[t] {
      MovedAt(book, queue, Cleared, t);
    }
    forall p: Place ensures Count(after, p) == Count(book, p) + Shift(p, Queued, Cleared, |queue|) {
      MovedCounts(book, queue, Queued, 0, Cleared, maxAttempts, p);
    }
  }

  // ------------------------------------------------------------------ settling, one job at a time

  /** The backlog, the retries decided so far, and the results still to be looked at. */
  ghost predicate Settling(book: Ledger, queue: seq<Job>, retryable: seq<Job>, todo: seq<Job>, maxAttempts: int) {
    && Listed(book, queue, Queued, 0, maxAttempts)
    && Listed(book, retryable, InFlight, 0, maxAttempts)
    && Listed(book, todo, InFlight, 1, maxAttempts)
    && forall i, j | 0 <= i < |retryable| && 0 <= j < |todo| :: !SameTicket(retryable[i], todo[j])
  }

  ghost predicate Progress(before: Ledger, book: Ledger, batch: seq<Job>, retryable: seq<Job>) {
    && Untouched(before, book, batch)
    && (forall i | 0 <= i < |batch| :: batch[i].ticket < |before| && before[batch[i].ticket].place.InFlight?)
    && forall i | 0 <= i < |retryable| :: Names(batch, retryable[i].ticket)
  }

  ghost predicate Counted(before: Ledger, book: Ledger, processed: nat, lost: nat, back: nat) {
    forall p: Place :: Count(book, p) == Count(before, p)
      + match p
        case Processed => processed
        case Dropped => lost
        case Queued => back
        case InFlight => 0 - processed - lost - back
        case Cleared => 0
  }

  lemma NothingSettled(book: Ledger, queue: seq<Job>, batch: seq<Job>, maxAttempts: int)
    requires Listed(book, queue, Queued, 0, maxAttempts) && Listed(book, batch, InFlight, 1, maxAttempts)
    ensures Settling(book, queue, [], batch, maxAttempts) && Progress(book, book, batch, []) && Counted(book, book, 0, 0, 0)
  {
    forall i | 0 <= i < |batch| ensures batch[i].ticket < |book| && book[batch[i].ticket].place.InFlight? {
      assert Stands(book, batch[i], InFlight, 1, maxAttempts);
    }
  }

  lemma PlaceChanges(before: Ledger, book: Ledger, t: nat, to: Place, processed: nat, lost: nat, back: nat, maxAttempts: int)
    requires t < |book| && book[t].place.InFlight? && Within(book, maxAttempts) && Counted(before, book, processed, lost, back)
    ensures var after := book[t := book[t].(place := to)];
            && Within(after, maxAttempts)
            && (to.Processed? ==> Counted(before, after, processed + 1, lost, back))
            && (to.Dropped? ==> Counted(before, after, processed, lost + 1, back))
            && (to.Queued? ==> Counted(before, after, processed, lost, back + 1))
  {
    var e := book[t].(place := to);
    forall p: Place ensures Count(book[t := e], p) == Count(book, p) - (if p.InFlight? then 1 else 0) + if p == to then 1 else 0 {
      CountUpdate(book, t, e, p);
    }
  }

  lemma NotNamed(book: Ledger, jobs: seq<Job>, place: Place, ahead: nat, t: nat, maxAttempts: int)
    requires Listed(book, jobs, place, ahead, maxAttempts) && t < |book| && book[t].place != place
    ensures !Names(jobs, t)
  {
  }

  lemma ListedElsewhere(book: Ledger, jobs: seq<Job>, place: Place, ahead: nat, t: nat, e: Entry, maxAttempts: int)
    requires Listed(book, jobs, place, ahead, maxAttempts) && t < |book| && !Names(jobs, t)
    ensures Listed(book[t := e], jobs, place, ahead, maxAttempts)
  {
    forall i | 0 <= i < |jobs| ensures Stands(book[t := e], jobs[i], place, ahead, maxAttempts) {
      assert Stands(book, jobs[i], place, ahead, maxAttempts);
    }
  }

  lemma ListedTail(book: Ledger, jobs: seq<Job>, place: Place, ahead: nat, maxAttempts: int)
    requires Listed(book, jobs, place, ahead, maxAttempts) && jobs != []
    ensures Listed(book, jobs[1..], place, ahead, maxAttempts) && !Names(jobs[1..], jobs[0].ticket)
  {
    ListedRest(book, jobs, place, ahead, book[jobs[0].ticket], maxAttempts);
    assert Stands(book, jobs[0], place, ahead, maxAttempts);
    assert book[jobs[0].ticket := book[jobs[0].ticket]] == book;
    forall k | 0 <= k < |jobs[1..]| ensures jobs[1..][k].ticket != jobs[0].ticket {
      assert !SameTicket(jobs[0], jobs[k + 1]);
    }
  }

  lemma ProgressStep(before: Ledger, book: Ledger, batch: seq<Job>, retryable: seq<Job>, t: nat, e: Entry)
    requires Progress(before, book, batch, retryable) && t < |book| && Names(batch, t)
    ensures Progress(before, book[t := e], batch, retryable)
  {
  }

  lemma FinishOne(before: Ledger, book: Ledger, queue: seq<Job>, retryable: seq<Job>, batch: seq<Job>, i: nat, to: Place, maxAttempts: int)
    requires i < |batch| && Settling(book, queue, retryable, batch[i..], maxAttempts)
    requires Progress(before, book, batch, retryable)
    ensures batch[i].ticket < |book| && book[batch[i].ticket].place.InFlight?
    ensures var after := book[batch[i].ticket := book[batch[i].ticket].(place := to)];
            Settling(after, queue, retryable, batch[i + 1..], maxAttempts) && Progress(before, after, batch, retryable)
  {
    var todo, t := batch[i..], batch[i].ticket;
    assert todo[0] == batch[i] && todo[1..] == batch[i + 1..];
    assert Stands(book, todo[0], InFlight, 1, maxAttempts);
    var e := book[t].(place := to);
    NotNamed(book, queue, Queued, 0, t, maxAttempts);
    ListedElsewhere(book, queue, Queued, 0, t, e, maxAttempts);
    ListedTail(book, todo, InFlight, 1, maxAttempts);
    ListedElsewhere(book, todo[1..], InFlight, 1, t, e, maxAttempts);
    assert !Names(retryable, t) by {
      assert forall k | 0 <= k < |retryable| :: !SameTicket(retryable[k], todo[0]);
    }
    ListedElsewhere(book, retryable, InFlight, 0, t, e, maxAttempts);
    StillApart(retryable, todo);
    assert Names(batch, t);
    ProgressStep(before, book, batch, retryable, t, e);
  }

  lemma StillApart(retryable: seq<Job>, todo: seq<Job>)
    requires todo != [] && forall i, j | 0 <= i < |retryable| && 0 <= j < |todo| :: !SameTicket(retryable[i], todo[j])
    ensures forall i, j | 0 <= i < |retryable| && 0 <= j < |todo[1..]| :: !SameTicket(retryable[i], todo[1..][j])
  {
    assert forall j | 0 <= j < |todo[1..]| :: todo[1..][j] == todo[j + 1];
  }

  lemma RetryOne(before: Ledger, book: Ledger, queue: seq<Job>, retryable: seq<Job>, batch: seq<Job>, i: nat, maxAttempts: int)
    requires i < |batch| && Settling(book, queue, retryable, batch[i..], maxAttempts) && batch[i].attempt < maxAttempts
    requires Progress(before, book, batch, retryable)
    ensures var again := batch[i].(attempt := batch[i].attempt + 1);
            && Settling(book, queue, retryable + [again], batch[i + 1..], maxAttempts)
            && Progress(before, book, batch, retryable + [again])
  {
    var todo, t := batch[i..], batch[i].ticket;
    var again := batch[i].(attempt := batch[i].attempt + 1);
    var more := retryable + [again];
    assert todo[0] == batch[i] && todo[1..] == batch[i + 1..];
    assert Stands(book, todo[0], InFlight, 1, maxAttempts);
    ListedTail(book, todo, InFlight, 1, maxAttempts);
    StillApart(retryable, todo);
    forall j | 0 <= j < |more| ensures Stands(book, more[j], InFlight, 0, maxAttempts) && Names(batch, more[j].ticket) {
      if j < |retryable| {
        assert more[j] == retryable[j] && Stands(book, retryable[j], InFlight, 0, maxAttempts);
      } else {
        assert Names(batch, t);
      }
    }
    forall a, b | 0 <= a < b < |more| ensures !SameTicket(more[a], more[b]) {
      assert more[a] == retryable[a];
      if b < |retryable| {
        assert more[b] == retryable[b];
      } else {
        assert !SameTicket(retryable[a], todo[0]);
      }
    }
    forall a, b | 0 <= a < |more| && 0 <= b < |todo[1..]| ensures !SameTicket(more[a], todo[1..][b]) {
      if a < |retryable| {
        assert more[a] == retryable[a];
      } else {
        assert !SameTicket(todo[0], todo[b + 1]);
      }
    }
  }

  /** A retry goes back to the backlog (`room`) or is lost. */
  lemma RequeueOne(before: Ledger, book: Ledger, queue: seq<Job>, retryable: seq<Job>, batch: seq<Job>, room: bool, maxAttempts: int)
    requires retryable != [] && Settling(book, queue, retryable, [], maxAttempts) && Progress(before, book, batch, retryable)
    ensures retryable[0].ticket < |book| && book[retryable[0].ticket].place.InFlight?
    ensures var t := retryable[0].ticket;
            var after := book[t := book[t].(place := if room then Queued else Dropped)];
            && Settling(after, if room then queue + [retryable[0]] else queue, retryable[1..], [], maxAttempts)
            && Progress(before, after, batch, retryable[1..])
  {
    var job, t := retryable[0], retryable[0].ticket;
    assert Stands(book, job, InFlight, 0, maxAttempts);
    var e := book[t].(place := if room then Queued else Dropped);
    var after := book[t := e];
    NotNamed(book, queue, Queued, 0, t, maxAttempts);
    ListedElsewhere(book, queue, Queued, 0, t, e, maxAttempts);
    ListedTail(book, retryable, InFlight, 0, maxAttempts);
    ListedElsewhere(book, retryable[1..], InFlight, 0, t, e, maxAttempts);
    ProgressStep(before, book, batch, retryable, t, e);
    assert forall j | 0 <= j < |retryable[1..]| :: retryable[1..][j] == retryable[j + 1];
    if room {
      ListedAppend(after, queue, job, maxAttempts);
    }
  }

  lemma ListedAppend(book: Ledger, queue: seq<Job>, job: Job, maxAttempts: int)
    requires Listed(book, queue, Queued, 0, maxAttempts) && Stands(book, job, Queued, 0, maxAttempts) && !Names(queue, job.ticket)
    ensures Listed(book, queue + [job], Queued, 0, maxAttempts)
  {
    var more := queue + [job];
    forall a, b | 0 <= a < b < |more| ensures !SameTicket(more[a], more[b]) {
      assert more[a] == queue[a];
    }
    forall a | 0 <= a < |more| ensures Stands(book, more[a], Queued, 0, maxAttempts) {
      assert a < |queue| ==> more[a] == queue[a];
    }
  }
}
