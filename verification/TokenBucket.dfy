/** The token bucket that bounds the rate of requests. Times are milliseconds and, like tokens, real numbers. */
module TokenBuckets {
  /** A bucket as a value: what it holds and the largest clock reading it has seen. */
  datatype Bucket = Bucket(capacity: real, perSecond: real, tokens: real, last: real)

  ghost predicate Sound(b: Bucket) { b.perSecond >= 0.0 && 0.0 <= b.tokens <= b.capacity }

  /** What flows in between two clock readings. */
  ghost function Flow(perSecond: real, from: real, to: real): real { (to - from) / 1000.0 * perSecond }

  ghost function Filled(b: Bucket, now: real): Bucket {
    if now <= b.last then b
    else
      var more := b.tokens + Flow(b.perSecond, b.last, now);
      b.(tokens := if b.capacity < more then b.capacity else more, last := now)
  }

  ghost predicate Grants(b: Bucket, now: real, count: real) { Filled(b, now).tokens >= count }

  ghost function After(b: Bucket, now: real, count: real): Bucket {
    var f := Filled(b, now);
    if f.tokens >= count then f.(tokens := f.tokens - count) else f
  }

  class TokenBucket {
    const capacity: real
    const refillPerSecond: real
    var tokens: real
    var lastRefill: real

    ghost function State(): Bucket reads this { Bucket(capacity, refillPerSecond, tokens, lastRefill) }

    constructor (capacity: real, refillPerSecond: real, now: real)
      ensures State() == Bucket(capacity, refillPerSecond, capacity, now)
    {
      this.capacity, this.refillPerSecond := capacity, refillPerSecond;
      tokens, lastRefill := capacity, now;
    }

    method Refill(now: real)
      modifies this
      ensures State() == Filled(old(State()), now)
    {
      var elapsed := if now - lastRefill < 0.0 then 0.0 else now - lastRefill;
      if elapsed == 0.0 {
        return;
      }
      var more := tokens + elapsed / 1000.0 * refillPerSecond;
      tokens := if capacity < more then capacity else more;
      lastRefill := now;
    }

    method TryTake(now: real, count: real) returns (ok: bool)
      modifies this
      ensures ok == Grants(old(State()), now, count)
      ensures State() == After(old(State()), now, count)
    {
      Refill(now);
      if tokens >= count {
        tokens := tokens - count;
        return true;
      }
      return false;
    }

    method Available(now: real) returns (left: real)
      modifies this
      ensures State() == Filled(old(State()), now) && left == tokens
    {
      Refill(now);
      return tokens;
    }
  }

  // ------------------------------------------------------------------ runs of calls

  /** A request for tokens at a clock reading; readings need not be in order. Asking for none only looks. */
  datatype Call = Call(now: real, count: real)

  ghost function Run(b: Bucket, calls: seq<Call>): Bucket
    decreases |calls|
  {
    if calls == [] then b else Run(After(b, calls[0].now, calls[0].count), calls[1..])
  }

  /** Tokens handed out by a run. */
  ghost function Granted(b: Bucket, calls: seq<Call>): real
    decreases |calls|
  {
    if calls == [] then 0.0
    else (if Grants(b, calls[0].now, calls[0].count) then calls[0].count else 0.0)
         + Granted(After(b, calls[0].now, calls[0].count), calls[1..])
  }

  ghost predicate Reasonable(calls: seq<Call>) { forall c <- calls :: c.count >= 0.0 }

  ghost function Latest(t: real, calls: seq<Call>): real
    decreases |calls|
  {
    if calls == [] then t else Latest(if calls[0].now <= t then t else calls[0].now, calls[1..])
  }

  lemma FlowIsForward(rate: real, from: real, to: real)
    requires rate >= 0.0 && from <= to
    ensures Flow(rate, from, to) >= 0.0
  {
    ProductIsPositive((to - from) / 1000.0, rate);
  }

  lemma ProductIsPositive(x: real, y: real)
    requires x >= 0.0 && y >= 0.0
    ensures x * y >= 0.0
  {
  }

  lemma FlowAdds(rate: real, a: real, b: real, c: real)
    ensures Flow(rate, a, b) + Flow(rate, b, c) == Flow(rate, a, c)
  {
    Distributes((b - a) / 1000.0, (c - b) / 1000.0, rate);
    assert (b - a) / 1000.0 + (c - b) / 1000.0 == (c - a) / 1000.0;
  }

  lemma FlowNone(rate: real, at: real)
    ensures Flow(rate, at, at) == 0.0
  {
  }

  lemma Distributes(x: real, y: real, z: real)
    ensures x * z + y * z == (x + y) * z
  {
  }

  lemma OneCall(b: Bucket, now: real, count: real)
    requires Sound(b) && count >= 0.0
    ensures var a := After(b, now, count);
            Sound(a) && a.capacity == b.capacity && a.perSecond == b.perSecond
            && b.last <= a.last && a.last == (if now <= b.last then b.last else now)
            && (if Grants(b, now, count) then count else 0.0) + a.tokens <= b.tokens + Flow(b.perSecond, b.last, a.last)
  {
    if now > b.last {
      FlowIsForward(b.perSecond, b.last, now);
    }
  }

  /** What a full bucket could have handed out is refused only while what was left and what flowed in since fall short. */
  lemma RefusedWhenShort(b: Bucket, now: real, count: real)
    requires Sound(b) && !Grants(b, now, count) && count <= b.capacity
    ensures b.tokens < count
    ensures now > b.last ==> b.tokens + Flow(b.perSecond, b.last, now) < count
  {
    if now > b.last {
      FlowIsForward(b.perSecond, b.last, now);
    }
  }

  lemma OneCallLosesNothing(b: Bucket, now: real, count: real)
    requires Sound(b) && count >= 0.0
    ensures var a := After(b, now, count);
            var handed := if Grants(b, now, count) then count else 0.0;
            || handed + a.tokens == b.tokens + Flow(b.perSecond, b.last, a.last)
            || (handed + a.tokens == b.capacity && b.capacity < b.tokens + Flow(b.perSecond, b.last, a.last))
  {
    FlowNone(b.perSecond, b.last);
  }

  /**
   * Nothing is lost but what a full bucket cannot hold: over any stretch of calls, what was handed out and what is
   * left make up what was there and what flowed in, or at least a full bucket.
   */
  lemma {:induction false} StretchIsHonoured(b: Bucket, calls: seq<Call>)
    requires Sound(b) && Reasonable(calls)
    ensures var inflow := b.tokens + Flow(b.perSecond, b.last, Latest(b.last, calls));
            Granted(b, calls) + Run(b, calls).tokens >= (if b.capacity < inflow then b.capacity else inflow)
    decreases |calls|
  {
    if calls == [] {
      FlowNone(b.perSecond, b.last);
    } else {
      assert calls[0] in calls;
      var a := After(b, calls[0].now, calls[0].count);
      OneCall(b, calls[0].now, calls[0].count);
      OneCallLosesNothing(b, calls[0].now, calls[0].count);
      StretchIsHonoured(a, calls[1..]);
      StretchIsBounded(a, calls[1..]);
      FlowAdds(b.perSecond, b.last, a.last, Latest(b.last, calls));
      FlowIsForward(b.perSecond, a.last, Latest(b.last, calls));
    }
  }

  /** So a bucket that refuses what it could hold has spent the difference, or it has not had the time. */
  lemma RefusedOnlyWhenSpent(b: Bucket, calls: seq<Call>, now: real, count: real)
    requires Sound(b) && Reasonable(calls) && 0.0 <= count <= b.capacity && Latest(b.last, calls) <= now
    requires !Grants(Run(b, calls), now, count)
    ensures var inflow := b.tokens + Flow(b.perSecond, b.last, now);
            Granted(b, calls) > (if b.capacity < inflow then b.capacity else inflow) - count
  {
    StretchIsBounded(b, calls);
    StretchIsHonoured(b, calls);
    var end := Run(b, calls);
    RefusedWhenShort(end, now, count);
    FlowAdds(b.perSecond, b.last, end.last, now);
    FlowIsForward(b.perSecond, end.last, now);
  }

  /**
   * Over any stretch of calls, whatever the clock does, tokens stay between none and the capacity, time is the
   * largest reading seen, and what is handed out is paid for by what was there and what flowed in.
   */
  lemma {:induction false} StretchIsBounded(b: Bucket, calls: seq<Call>)
    requires Sound(b) && Reasonable(calls)
    ensures Sound(Run(b, calls)) && Run(b, calls).last == Latest(b.last, calls) >= b.last
    ensures Run(b, calls).capacity == b.capacity && Run(b, calls).perSecond == b.perSecond
    ensures Granted(b, calls) + Run(b, calls).tokens
            <= b.tokens + Flow(b.perSecond, b.last, Latest(b.last, calls))
    decreases |calls|
  {
    if calls != [] {
      assert calls[0] in calls;
      OneCall(b, calls[0].now, calls[0].count);
      var a := After(b, calls[0].now, calls[0].count);
      StretchIsBounded(a, calls[1..]);
      FlowAdds(b.perSecond, b.last, a.last, Latest(b.last, calls));
    }
  }

  lemma {:induction false} RunsCompose(b: Bucket, first: seq<Call>, second: seq<Call>)
    ensures Run(b, first + second) == Run(Run(b, first), second)
    decreases |first|
  {
    if first == [] {
      assert first + second == second;
    } else {
      assert (first + second)[1..] == first[1..] + second;
      RunsCompose(After(b, first[0].now, first[0].count), first[1..], second);
    }
  }

  /** The bound for any stretch of any run: at most a full bucket and the flow between the largest readings at its ends. */
  lemma GrantedWithin(b: Bucket, before: seq<Call>, stretch: seq<Call>)
    requires Sound(b) && Reasonable(before) && Reasonable(stretch)
    ensures var start := Run(b, before);
            Granted(start, stretch) <= b.capacity + Flow(b.perSecond, start.last, Run(b, before + stretch).last)
  {
    StretchIsBounded(b, before);
    StretchIsBounded(Run(b, before), stretch);
    RunsCompose(b, before, stretch);
  }
}
