/** Searching byte sequences, and the buffered reader over a socket. */
module Bytes {
  type Byte = b: nat | b < 256

  const CR: Byte := 13
  const LF: Byte := 10
  const CRLF: seq<Byte> := [CR, LF]
  const HEADER_END: seq<Byte> := [CR, LF, CR, LF]

  predicate OccursAt(s: seq<Byte>, needle: seq<Byte>, i: int) {
    0 <= i && i + |needle| <= |s| && s[i..i + |needle|] == needle
  }

  /** `Buffer.indexOf`: the first occurrence, or -1. */
  function IndexOf(s: seq<Byte>, needle: seq<Byte>): int { IndexFrom(s, needle, 0) }

  function IndexFrom(s: seq<Byte>, needle: seq<Byte>, from: nat): (r: int)
    requires from <= |s| + 1
    ensures r == -1 || (from <= r && r + |needle| <= |s|)
    decreases |s| + 1 - from
  {
    if from > |s| then -1
    else if OccursAt(s, needle, from) then from
    else IndexFrom(s, needle, from + 1)
  }

  ghost predicate IsFirst(s: seq<Byte>, needle: seq<Byte>, from: nat, r: int) {
    if r == -1 then forall i | from <= i :: !OccursAt(s, needle, i)
    else from <= r && OccursAt(s, needle, r) && forall i | from <= i < r :: !OccursAt(s, needle, i)
  }

  lemma {:induction false} IndexFromIsFirst(s: seq<Byte>, needle: seq<Byte>, from: nat)
    requires from <= |s| + 1
    ensures IsFirst(s, needle, from, IndexFrom(s, needle, from))
    decreases |s| + 1 - from
  {
    if from <= |s| && !OccursAt(s, needle, from) {
      IndexFromIsFirst(s, needle, from + 1);
    }
  }

  lemma FirstIsIndex(s: seq<Byte>, needle: seq<Byte>, r: int)
    requires IsFirst(s, needle, 0, r)
    ensures IndexOf(s, needle) == r
  {
    IndexFromIsFirst(s, needle, 0);
  }

  lemma OccursInPrefix(prefix: seq<Byte>, more: seq<Byte>, needle: seq<Byte>, i: int)
    ensures OccursAt(prefix, needle, i) <==> OccursAt(prefix + more, needle, i) && i + |needle| <= |prefix|
  {
    if 0 <= i && i + |needle| <= |prefix| {
      assert (prefix + more)[i..i + |needle|] == prefix[i..i + |needle|];
    }
  }

  /** What is found in the bytes received so far is what would be found in all of them. */
  lemma FoundInPrefix(prefix: seq<Byte>, more: seq<Byte>, needle: seq<Byte>)
    ensures IndexOf(prefix, needle) != -1 ==> IndexOf(prefix + more, needle) == IndexOf(prefix, needle)
    ensures IndexOf(prefix, needle) == -1 && IndexOf(prefix + more, needle) != -1 ==>
              IndexOf(prefix + more, needle) + |needle| > |prefix|
  {
    var all := prefix + more;
    IndexFromIsFirst(prefix, needle, 0);
    IndexFromIsFirst(all, needle, 0);
    forall i ensures OccursAt(prefix, needle, i) <==> OccursAt(all, needle, i) && i + |needle| <= |prefix| {
      OccursInPrefix(prefix, more, needle, i);
    }
    if IndexOf(prefix, needle) != -1 {
      FirstIsIndex(all, needle, IndexOf(prefix, needle));
    }
  }
}

module ByteStream {
  import opened Bytes

  datatype Reason = SocketError | TimedOut | StreamClosed

  datatype WaitOutcome = Ready | Rejected(reason: Reason)

  datatype Waiter = Waiter(id: nat, min: nat)

  datatype Registration = Settled(outcome: WaitOutcome) | Queued(waiter: Waiter)

  ghost predicate Satisfied(w: Waiter, length: nat, ended: bool, failed: bool) { failed || ended || length >= w.min }

  /** The waiters a signal leaves waiting, in their order. */
  ghost function StillWaiting(ws: seq<Waiter>, length: nat, ended: bool, failed: bool): seq<Waiter> {
    if ws == [] then []
    else
      var front := StillWaiting(ws[..|ws| - 1], length, ended, failed);
      var last := ws[|ws| - 1];
      if Satisfied(last, length, ended, failed) then front else front + [last]
  }

  lemma {:induction false} StillWaitingMembers(ws: seq<Waiter>, length: nat, ended: bool, failed: bool)
    ensures forall w <- StillWaiting(ws, length, ended, failed) :: w in ws && !Satisfied(w, length, ended, failed)
    ensures forall w <- ws :: !Satisfied(w, length, ended, failed) ==> w in StillWaiting(ws, length, ended, failed)
    ensures |StillWaiting(ws, length, ended, failed)| <= |ws|
    ensures ended || failed ==> StillWaiting(ws, length, ended, failed) == []
  {
    if ws != [] {
      StillWaitingMembers(ws[..|ws| - 1], length, ended, failed);
    }
  }

  function OutcomeOf(failed: bool): WaitOutcome { if failed then Rejected(SocketError) else Ready }

  /** The promises after a signal: each satisfiable waiter's is settled, the others are as before. */
  ghost function SettleAll(settled: map<Waiter, WaitOutcome>, ws: seq<Waiter>, length: nat, ended: bool, failed: bool): map<Waiter, WaitOutcome> {
    settled + map w | w in ws && Satisfied(w, length, ended, failed) :: OutcomeOf(failed)
  }

  lemma SettledAt(settled: map<Waiter, WaitOutcome>, ws: seq<Waiter>, length: nat, ended: bool, failed: bool, v: Waiter)
    ensures var after := SettleAll(settled, ws, length, ended, failed);
            && (v in after <==> v in settled || (v in ws && Satisfied(v, length, ended, failed)))
            && (v in after ==> after[v] == if v in ws && Satisfied(v, length, ended, failed) then OutcomeOf(failed) else settled[v])
  {
    hide Satisfied, OutcomeOf;
  }

  lemma SettleOneMore(settled: map<Waiter, WaitOutcome>, ws: seq<Waiter>, w: Waiter, length: nat, ended: bool, failed: bool)
    ensures SettleAll(settled, ws + [w], length, ended, failed) ==
            if Satisfied(w, length, ended, failed)
            then SettleAll(settled, ws, length, ended, failed)[w := OutcomeOf(failed)]
            else SettleAll(settled, ws, length, ended, failed)
  {
    hide Satisfied, OutcomeOf, SettleAll;
    var before, after := SettleAll(settled, ws, length, ended, failed), SettleAll(settled, ws + [w], length, ended, failed);
    var one := if Satisfied(w, length, ended, failed) then before[w := OutcomeOf(failed)] else before;
    forall v ensures (v in after <==> v in one) && (v in after ==> after[v] == one[v]) {
      SettledAt(settled, ws, length, ended, failed, v);
      SettledAt(settled, ws + [w], length, ended, failed, v);
    }
    assert after == one;
  }

  lemma NoneSignalled(settled: map<Waiter, WaitOutcome>, ws: seq<Waiter>, length: nat, ended: bool, failed: bool)
    ensures StillWaiting(ws[..0], length, ended, failed) + ws[0..] == ws
    ensures SettleAll(settled, ws[..0], length, ended, failed) == settled
  {
    assert StillWaiting(ws[..0], length, ended, failed) == [];
  }

  ghost predicate DistinctIds(ws: seq<Waiter>) { forall i, j :: 0 <= i < j < |ws| ==> ws[i].id != ws[j].id }

  lemma {:induction false} StillWaitingDistinct(ws: seq<Waiter>, length: nat, ended: bool, failed: bool)
    requires DistinctIds(ws)
    ensures DistinctIds(StillWaiting(ws, length, ended, failed))
  {
    if ws != [] {
      var front := ws[..|ws| - 1];
      StillWaitingDistinct(front, length, ended, failed);
      StillWaitingMembers(front, length, ended, failed);
      forall w <- StillWaiting(front, length, ended, failed) ensures w.id != ws[|ws| - 1].id {
        var k :| 0 <= k < |front| && front[k] == w;
      }
    }
  }

  lemma NextWaiter(ws: seq<Waiter>, i: nat, length: nat, ended: bool, failed: bool)
    requires i < |ws| && DistinctIds(ws)
    ensures ws[..i + 1] == ws[..i] + [ws[i]]
    ensures ws[i] !in StillWaiting(ws[..i], length, ended, failed)
    ensures StillWaiting(ws[..i], length, ended, failed) + ws[i..]
            == StillWaiting(ws[..i], length, ended, failed) + [ws[i]] + ws[i + 1..]
    ensures StillWaiting(ws[..i + 1], length, ended, failed)
            == if Satisfied(ws[i], length, ended, failed) then StillWaiting(ws[..i], length, ended, failed)
               else StillWaiting(ws[..i], length, ended, failed) + [ws[i]]
  {
    assert ws[..i + 1][..i] == ws[..i];
    StillWaitingMembers(ws[..i], length, ended, failed);
    assert ws[i] !in ws[..i];
  }

  /** Waiters have their own numbers, below the next one, and are settled only by leaving the list. */
  ghost predicate Enrolled(ws: seq<Waiter>, settled: map<Waiter, WaitOutcome>, nextId: nat) {
    && DistinctIds(ws)
    && (forall w <- ws :: w.id < nextId && w !in settled)
    && (forall w | w in settled :: w.id < nextId)
  }

  lemma SettledStayEnrolled(ws: seq<Waiter>, settled: map<Waiter, WaitOutcome>, nextId: nat, length: nat, ended: bool, failed: bool)
    requires Enrolled(ws, settled, nextId)
    ensures forall w | w in SettleAll(settled, ws, length, ended, failed) :: w.id < nextId
    ensures forall w | w in ws && !Satisfied(w, length, ended, failed) :: w !in SettleAll(settled, ws, length, ended, failed)
  {
    hide DistinctIds, StillWaiting;
  }

  /** After a signal no waiter could be settled, and none of those left has been. */
  lemma SignalKeepsValid(ws: seq<Waiter>, settled: map<Waiter, WaitOutcome>, nextId: nat, length: nat, ended: bool, failed: bool)
    requires Enrolled(ws, settled, nextId)
    ensures DistinctIds(ws)
    ensures var left := StillWaiting(ws, length, ended, failed);
            && Enrolled(left, SettleAll(settled, ws, length, ended, failed), nextId)
            && (forall w <- left :: !Satisfied(w, length, ended, failed))
            && (ended || failed ==> left == [])
  {
    hide SettleAll, StillWaiting, Satisfied, DistinctIds;
    StillWaitingDistinct(ws, length, ended, failed);
    StillWaitingMembers(ws, length, ended, failed);
    SettledStayEnrolled(ws, settled, nextId, length, ended, failed);
  }

  lemma WithoutOne(ws: seq<Waiter>, k: nat)
    requires DistinctIds(ws) && k < |ws|
    ensures var rest := ws[..k] + ws[k + 1..];
            && ws == ws[..k] + [ws[k]] + ws[k + 1..] && ws[k] !in ws[..k]
            && DistinctIds(rest)
            && forall v: Waiter :: v in rest <==> v in ws && v != ws[k]
  {
    var rest := ws[..k] + ws[k + 1..];
    forall v: Waiter | v in ws && v != ws[k] ensures v in rest {
      var j :| 0 <= j < |ws| && ws[j] == v;
      assert rest[if j < k then j else j - 1] == v;
    }
  }

  lemma MovesOver<T>(a: seq<T>, b: seq<T>, n: nat)
    requires n <= |b|
    ensures (a + b[..n]) + b[n..] == a + b
  {
  }

  lemma CutsFront<T>(a: seq<T>, b: seq<T>, n: nat)
    requires n <= |a|
    ensures a[..n] + (a[n..] + b) == a + b && (a + b)[n..] == a[n..] + b && a[..n] + a[n..] == a
  {
  }

  /**
   * The buffered reader. `incoming` stands for the peer: the bytes it has yet to deliver, in segments of its own
   * choosing. As on a TCP connection, the end is signalled after the last byte has arrived.
   */
  class StreamBuffer {
    var buffer: seq<Byte>
    var ended: bool
    var failed: bool
    var waiters: seq<Waiter>
    var settled: map<Waiter, WaitOutcome>
    var nextId: nat
    var destroyed: bool
    var sent: seq<Byte>
    var incoming: seq<Byte>

    /** Every byte handed to a reader so far, in order. */
    ghost var taken: seq<Byte>
    /** How many bytes had been taken when the end was signalled. */
    ghost var endedAt: nat

    /** The bytes no reader has seen yet. */
    ghost function Rest(): (rest: seq<Byte>)
      reads this
      ensures |rest| == |buffer| + |incoming|
    {
      buffer + incoming
    }

    ghost predicate Valid()
      reads this
    {
      && Enrolled(waiters, settled, nextId)
      && (forall w <- waiters :: !Satisfied(w, |buffer|, ended, failed))
      && (ended ==> incoming == [] && endedAt <= |taken|)
    }

    constructor (initial: seq<Byte>, incoming: seq<Byte>)
      ensures Valid() && Rest() == initial + incoming
      ensures buffer == initial && taken == [] && sent == [] && !ended && !failed && !destroyed
    {
      buffer, this.incoming := initial, incoming;
      ended, failed, destroyed := false, false, false;
      waiters, settled, nextId := [], map[], 0;
      sent, taken, endedAt := [], [], 0;
    }

    // ---------------------------------------------------------------- signals

    /** Settles every waiter that can be settled and keeps the others in order. */
    method Signal()
      requires DistinctIds(waiters)
      modifies this`waiters, this`settled
      ensures waiters == StillWaiting(old(waiters), |buffer|, ended, failed)
      ensures settled == SettleAll(old(settled), old(waiters), |buffer|, ended, failed)
    {
      hide SettleAll, StillWaiting, DistinctIds;
      var snapshot := waiters;
      NoneSignalled(settled, snapshot, |buffer|, ended, failed);
      for i := 0 to |snapshot|
        invariant waiters == StillWaiting(snapshot[..i], |buffer|, ended, failed) + snapshot[i..]
        invariant settled == SettleAll(old(settled), snapshot[..i], |buffer|, ended, failed)
      {
        var waiter := snapshot[i];
        NextWaiter(snapshot, i, |buffer|, ended, failed);
        SettleOneMore(old(settled), snapshot[..i], waiter, |buffer|, ended, failed);
        if failed || |buffer| >= waiter.min || ended {
          Remove(waiter, StillWaiting(snapshot[..i], |buffer|, ended, failed), snapshot[i + 1..]);
          settled := settled[waiter := OutcomeOf(failed)];
        }
      }
      assert snapshot[..|snapshot|] == snapshot;
    }

    /** `splice` at the waiter's index, if it is still there. */
    method Remove(w: Waiter, ghost front: seq<Waiter>, ghost back: seq<Waiter>)
      requires waiters == front + [w] + back && w !in front
      modifies this`waiters
      ensures waiters == front + back
    {
      var i := 0;
      while i < |waiters| && waiters[i] != w
        invariant 0 <= i <= |front|
      {
        i := i + 1;
      }
      assert waiters[|front|] == w;
      if i < |waiters| {
        waiters := waiters[..i] + waiters[i + 1..];
      }
    }

    /** The next `n` bytes arrive. */
    method OnData(n: nat)
      requires Valid() && n <= |incoming|
      modifies this
      ensures Valid() && Rest() == old(Rest()) && buffer == old(buffer) + old(incoming)[..n]
      ensures taken == old(taken) && ended == old(ended) && endedAt == old(endedAt) && sent == old(sent) && destroyed == old(destroyed)
      ensures waiters == StillWaiting(old(waiters), |buffer|, ended, failed)
      ensures settled == SettleAll(old(settled), old(waiters), |buffer|, ended, failed)
      ensures nextId == old(nextId) && failed == old(failed)
    {
      hide Enrolled, SettleAll, StillWaiting, DistinctIds;
      MovesOver(buffer, incoming, n);
      buffer, incoming := buffer + incoming[..n], incoming[n..];
      SignalKeepsValid(waiters, settled, nextId, |buffer|, ended, failed);
      Signal();
    }

    /** The peer has no more bytes. */
    method OnEnd()
      requires Valid() && incoming == []
      modifies this
      ensures Valid() && Rest() == old(Rest()) && buffer == old(buffer)
      ensures ended && taken == old(taken) && endedAt == (if old(ended) then old(endedAt) else |taken|)
      ensures sent == old(sent) && destroyed == old(destroyed)
      ensures waiters == []
      ensures settled == SettleAll(old(settled), old(waiters), |buffer|, ended, failed)
      ensures nextId == old(nextId) && failed == old(failed)
    {
      hide Enrolled, SettleAll, StillWaiting, DistinctIds;
      endedAt := if ended then endedAt else |taken|;
      ended := true;
      SignalKeepsValid(waiters, settled, nextId, |buffer|, ended, failed);
      Signal();
    }

    method OnError()
      requires Valid()
      modifies this
      ensures Valid() && Rest() == old(Rest()) && buffer == old(buffer)
      ensures failed && taken == old(taken) && ended == old(ended) && endedAt == old(endedAt)
      ensures sent == old(sent) && destroyed == old(destroyed)
      ensures waiters == []
      ensures settled == SettleAll(old(settled), old(waiters), |buffer|, ended, failed)
      ensures nextId == old(nextId)
    {
      hide Enrolled, SettleAll, StillWaiting, DistinctIds;
      failed := true;
      SignalKeepsValid(waiters, settled, nextId, |buffer|, ended, failed);
      Signal();
    }

    /** A waiter whose time is up leaves the list. */
    method OnTimeout(w: Waiter)
      requires Valid() && w in waiters
      modifies this`waiters, this`settled
      ensures Valid() && settled == old(settled)[w := Rejected(TimedOut)]
      ensures forall v: Waiter :: v in waiters <==> v in old(waiters) && v != w
    {
      ghost var k :| 0 <= k < |waiters| && waiters[k] == w;
      ghost var front, back := waiters[..k], waiters[k + 1..];
      WithoutOne(waiters, k);
      Remove(w, front, back);
      settled := settled[w := Rejected(TimedOut)];
    }

    // ---------------------------------------------------------------- reading and writing

    /** `wait`: settled at once if it can be, otherwise queued. */
    method Register(min: nat) returns (r: Registration)
      requires Valid()
      modifies this`waiters, this`settled, this`nextId
      ensures Valid()
      ensures r.Settled? <==> |buffer| >= min || ended || failed
      ensures r.Settled? ==> r.outcome == (if failed then Rejected(SocketError) else Ready) && waiters == old(waiters)
      ensures r.Queued? ==> r.waiter.min == min && waiters == old(waiters) + [r.waiter] && r.waiter !in settled
      ensures r.Queued? ==> r.waiter !in old(waiters)
      ensures settled == old(settled)
    {
      if |buffer| >= min || ended || failed {
        return Settled(OutcomeOf(failed));
      }
      var waiter := Waiter(nextId, min);
      r := Queued(waiter);
      nextId := nextId + 1;
      waiters := waiters + [waiter];
    }

    method Take(bytes: nat) returns (out: seq<Byte>)
      requires Valid()
      modifies this`buffer, this`taken
      ensures Valid() && out + buffer == old(buffer) && |out| == (if bytes < |old(buffer)| then bytes else |old(buffer)|)
      ensures taken == old(taken) + out && out + Rest() == old(Rest())
    {
      hide Enrolled;
      var n := if bytes < |buffer| then bytes else |buffer|;
      CutsFront(buffer, incoming, n);
      out := buffer[..n];
      Consume(bytes);
    }

    method Consume(bytes: nat)
      requires Valid()
      modifies this`buffer, this`taken
      ensures Valid()
      ensures var n := if bytes < |old(buffer)| then bytes else |old(buffer)|;
              buffer == old(buffer)[n..] && taken == old(taken) + old(buffer)[..n] && Rest() == old(Rest())[n..]
    {
      hide Enrolled;
      var n := if bytes < |buffer| then bytes else |buffer|;
      CutsFront(buffer, incoming, n);
      taken := taken + buffer[..n];
      buffer := buffer[n..];
    }

    method Drain() returns (out: seq<Byte>)
      requires Valid()
      modifies this`buffer, this`taken
      ensures Valid() && out == old(buffer) && buffer == [] && taken == old(taken) + out && out + Rest() == old(Rest())
    {
      hide Enrolled;
      out := buffer;
      taken := taken + buffer;
      buffer := [];
    }

    /** `write` fails on a stream that was handed over or destroyed. */
    method Write(chunk: seq<Byte>) returns (ok: bool)
      modifies this`sent
      ensures ok <==> !destroyed
      ensures sent == if ok then old(sent) + chunk else old(sent)
      ensures (old(Valid()) ==> Valid()) && Rest() == old(Rest())
    {
      hide Enrolled;
      ok := !destroyed;
      if ok {
        sent := sent + chunk;
      }
    }

    /** Hands the socket over: every waiter is rejected, the buffered bytes stay. */
    method Detach() returns (left: seq<Byte>)
      requires Valid()
      modifies this`destroyed, this`waiters, this`settled
      ensures Valid() && destroyed && waiters == []
      ensures left == buffer
      ensures forall w <- old(waiters) :: w in settled && settled[w] == Rejected(StreamClosed)
      ensures forall w | w in old(settled) :: w in settled && settled[w] == old(settled)[w]
    {
      destroyed := true;
      for i := 0 to |waiters|
        invariant destroyed && waiters == old(waiters) && Valid'(i)
        invariant forall k | 0 <= k < i :: waiters[k] in settled && settled[waiters[k]] == Rejected(StreamClosed)
        invariant forall w | w in old(settled) :: w in settled && settled[w] == old(settled)[w]
      {
        settled := settled[waiters[i] := Rejected(StreamClosed)];
      }
      waiters := [];
      left := buffer;
    }

    /** `Valid` while the first `i` waiters have already been rejected. */
    ghost predicate Valid'(i: nat)
      reads this
    {
      && DistinctIds(waiters)
      && (forall w <- waiters :: w.id < nextId)
      && (forall k | i <= k < |waiters| :: waiters[k] !in settled)
      && (forall w | w in settled :: w.id < nextId)
      && (ended ==> incoming == [] && endedAt <= |taken|)
    }

    // ---------------------------------------------------------------- waiting

    /** A promise is still pending, or was settled for a reason that still stands. */
    ghost predicate PendingOrSettled(w: Waiter)
      reads this
    {
      w in waiters
      || (w in settled && ((settled[w] == Rejected(SocketError) && failed) || settled[w] == Rejected(TimedOut)
                           || (settled[w] == Ready && (|buffer| >= w.min || ended))))
    }

    /** The peer, the network and the timers: any finite sequence of segments, end signals, errors and timeouts. */
    method Environment()
      requires Valid()
      modifies this
      ensures Valid() && Rest() == old(Rest()) && old(buffer) <= buffer && |incoming| <= |old(incoming)|
      ensures taken == old(taken) && sent == old(sent) && destroyed == old(destroyed)
      ensures old(failed) ==> failed
      ensures old(ended) ==> ended && endedAt == old(endedAt) && buffer == old(buffer)
      ensures !old(ended) && ended ==> endedAt == |taken|
      ensures forall w <- waiters :: w in old(waiters)
      ensures forall w <- old(waiters) :: PendingOrSettled(w)
    {
      hide Enrolled;
      var steps: nat := *;
      while steps > 0
        invariant Valid() && Rest() == old(Rest()) && old(buffer) <= buffer && |incoming| <= |old(incoming)|
        invariant taken == old(taken) && sent == old(sent) && destroyed == old(destroyed)
        invariant old(failed) ==> failed
        invariant old(ended) ==> ended && endedAt == old(endedAt) && buffer == old(buffer)
        invariant !old(ended) && ended ==> endedAt == |taken|
        invariant forall w <- waiters :: w in old(waiters)
        invariant forall w <- old(waiters) :: PendingOrSettled(w)
      {
        steps := steps - 1;
        Event();
      }
    }

    /** One event, or none. */
    method Event()
      requires Valid()
      modifies this
      ensures Valid() && Rest() == old(Rest()) && old(buffer) <= buffer && |incoming| <= |old(incoming)|
      ensures taken == old(taken) && sent == old(sent) && destroyed == old(destroyed)
      ensures old(failed) ==> failed
      ensures old(ended) ==> ended && endedAt == old(endedAt) && buffer == old(buffer)
      ensures !old(ended) && ended ==> endedAt == |taken|
      ensures forall w <- waiters :: w in old(waiters)
      ensures forall w <- old(waiters) :: PendingOrSettled(w)
      ensures forall w | w in old(settled) && w !in old(waiters) :: w in settled && settled[w] == old(settled)[w]
    {
      var kind: int, n: nat := *, *;
      if kind == 0 && !ended && n <= |incoming| {
        OnData(n);
      } else if kind == 1 && incoming == [] {
        OnEnd();
      } else if kind == 2 {
        OnError();
      } else if kind == 3 && n < |waiters| {
        OnTimeout(waiters[n]);
        return;
      }
      StillWaitingMembers(old(waiters), |buffer|, ended, failed);
    }

    /**
     * Awaiting `wait(min)`, whoever else is waiting: the peer delivers any segments, the end, or an error, and timers
     * expire, at any moment until the reader goes on. `Ready` means enough bytes, or that there will be no more.
     */
    method Wait(min: nat) returns (outcome: WaitOutcome)
      requires Valid()
      modifies this
      ensures Valid()
      ensures forall w <- waiters :: w in old(waiters)
      ensures forall w <- old(waiters) :: PendingOrSettled(w)
      ensures old(waiters) == [] ==> waiters == []
      ensures taken == old(taken) && sent == old(sent) && destroyed == old(destroyed)
      ensures Rest() == old(Rest()) && old(buffer) <= buffer && |incoming| <= |old(incoming)|
      ensures old(ended) ==> ended && endedAt == old(endedAt) && buffer == old(buffer)
      ensures !old(ended) && ended ==> endedAt == |taken|
      ensures outcome.Ready? ==> |buffer| >= min || ended
      ensures old(failed) ==> failed && outcome == Rejected(SocketError)
      ensures outcome == Rejected(SocketError) ==> failed
      ensures outcome == Rejected(TimedOut) ==> |old(buffer)| < min && !old(ended)
      ensures outcome.Rejected? ==> outcome.reason != StreamClosed
    {
      hide Enrolled;
      var r := Register(min);
      ghost var queued := waiters;
      Environment();
      if r.Settled? {
        assert waiters != [] ==> waiters[0] in old(waiters);
        return r.outcome;
      }
      var mine := r.waiter;
      assert forall w: Waiter :: w in queued <==> w in old(waiters) || w == mine;
      assert PendingOrSettled(mine);
      if mine in waiters {
        outcome := Rejected(TimedOut);
        OnTimeout(mine);
      } else {
        outcome := settled[mine];
      }
      assert waiters != [] ==> waiters[0] in old(waiters);
    }
  }

  // ------------------------------------------------------------------ whole runs

  lemma SplitsAt(front: seq<Byte>, incoming: seq<Byte>, initial: seq<Byte>, total: seq<Byte>)
    requires front + incoming == initial + total && |incoming| <= |total|
    ensures var n := |total| - |incoming|;
            front == initial + total[..n] && incoming == total[n..]
  {
    var n := |total| - |incoming|;
    var whole := initial + total;
    assert initial + total == (initial + total[..n]) + total[n..];
    assert front == whole[..|front|] && incoming == whole[|front|..];
  }

  /**
   * Any run of events and reads, in any order: the bytes taken and those buffered are the initial ones and those
   * received so far, in order, none lost or repeated; and no waiter is left that could be settled.
   */
  method Operate(initial: seq<Byte>, total: seq<Byte>, steps: nat) returns (s: StreamBuffer, ghost received: nat)
    ensures s.Valid() && received <= |total|
    ensures s.taken + s.buffer == initial + total[..received] && s.incoming == total[received..]
    ensures forall w <- s.waiters :: !Satisfied(w, |s.buffer|, s.ended, s.failed)
  {
    hide Enrolled;
    s := new StreamBuffer(initial, total);
    assert s.taken + s.Rest() == initial + total;
    for i := 0 to steps
      invariant fresh(s) && s.Valid() && s.taken + s.Rest() == initial + total && |s.incoming| <= |total|
    {
      var choice: int, n: nat, chunk: seq<Byte> := *, *, *;
      ghost var taken, rest := s.taken, s.Rest();
      if choice == 0 {
        var r := s.Register(n);
      } else if choice == 1 {
        var out := s.Take(n);
        Reassociate(taken, out, s.Rest());
      } else if choice == 2 {
        var out := s.Drain();
        Reassociate(taken, out, s.Rest());
      } else if choice == 3 {
        var ok := s.Write(chunk);
      } else if choice == 4 {
        var left := s.Detach();
      } else if choice == 5 {
        var outcome := s.Wait(n);
      } else {
        s.Event();
      }
    }
    received := |total| - |s.incoming|;
    Reassociate(s.taken, s.buffer, s.incoming);
    SplitsAt(s.taken + s.buffer, s.incoming, initial, total);
  }

  lemma Reassociate(a: seq<Byte>, b: seq<Byte>, c: seq<Byte>)
    ensures (a + b) + c == a + (b + c)
  {
  }
}
