/** The refresh scheduler: timers, single flight, and what every order of events keeps. */
module Scheduling {
  import opened Common

  const STARTUP_DELAY: int := 1500
  const MIN_DELAY: int := 5000
  const SHORTEST_TIMER: int := 1000
  const POLL: int := 200

  /** Who asked for a cycle: the timer, the re-anchoring manual trigger, or a plain manual call. */
  datatype Trigger = Timer | RunNow | Manual

  datatype Report = Report(completed: bool, duration: int)

  /** What a scheduler did, in order. */
  datatype Event = Armed(delay: int) | Began(trigger: Trigger) | Ended(ok: bool) | Stopped

  /** A caller whose cycle is over but who has not yet gone on; a cycle that threw leaves no report. */
  datatype Waiting = Waiting(trigger: Trigger, report: Option<Report>)

  /** Cycles begun and not yet ended. */
  ghost function InFlight(log: seq<Event>): int {
    if log == [] then 0
    else InFlight(log[..|log| - 1]) + match log[|log| - 1]
                                      case Began(_) => 1
                                      case Ended(_) => -1
                                      case _ => 0
  }

  ghost function Endings(log: seq<Event>, ok: bool): nat {
    if log == [] then 0 else Endings(log[..|log| - 1], ok) + if log[|log| - 1] == Ended(ok) then 1 else 0
  }

  ghost predicate SingleFlight(log: seq<Event>) { forall n | 0 <= n <= |log| :: 0 <= InFlight(log[..n]) <= 1 }

  /** After a stop no timer is armed and no cycle begins on a timer's behalf. */
  ghost predicate StopHolds(log: seq<Event>) {
    forall i, j | 0 <= i < j < |log| && log[i].Stopped? :: !log[j].Armed? && log[j] != Began(Timer)
  }

  ghost predicate DelaysKept(log: seq<Event>) { forall i | 0 <= i < |log| && log[i].Armed? :: log[i].delay >= 1000 }

  ghost predicate HasStopped(log: seq<Event>) { exists i :: 0 <= i < |log| && log[i].Stopped? }

  /** What every run of the scheduler leaves behind. */
  ghost predicate Orderly(log: seq<Event>) { SingleFlight(log) && StopHolds(log) && DelaysKept(log) }

  ghost predicate MayFollow(log: seq<Event>, e: Event) {
    match e
    case Armed(delay) => !HasStopped(log) && delay >= SHORTEST_TIMER
    case Began(trigger) => InFlight(log) == 0 && (HasStopped(log) ==> !trigger.Timer?)
    case Ended(_) => InFlight(log) == 1
    case Stopped => true
  }

  lemma StaysOrderly(log: seq<Event>, e: Event)
    requires Orderly(log) && MayFollow(log, e)
    ensures Orderly(log + [e])
    ensures InFlight(log + [e]) == InFlight(log) + match e case Began(_) => 1 case Ended(_) => -1 case _ => 0
    ensures forall ok :: Endings(log + [e], ok) == Endings(log, ok) + if e == Ended(ok) then 1 else 0
    ensures HasStopped(log + [e]) <==> HasStopped(log) || e.Stopped?
  {
    var more := log + [e];
    assert more[..|log|] == log == log[..|log|];
    assert 0 <= InFlight(log[..|log|]) <= 1;
    assert more[|log|] == e;
    forall n | 0 <= n <= |more| ensures 0 <= InFlight(more[..n]) <= 1 {
      assert if n <= |log| then more[..n] == log[..n] else more[..n] == more;
    }
    assert HasStopped(log) ==> HasStopped(more) by {
      if i :| 0 <= i < |log| && log[i].Stopped? {
        assert more[i].Stopped?;
      }
    }
  }

  /** Some caller about to go on will set the next timer. */
  ghost predicate SomeoneWaits(waiting: seq<Waiting>) { exists i :: 0 <= i < |waiting| && !waiting[i].trigger.Manual? }

  lemma OneMoreWaits(waiting: seq<Waiting>, w: Waiting)
    ensures SomeoneWaits(waiting + [w]) <==> SomeoneWaits(waiting) || !w.trigger.Manual?
  {
    var more := waiting + [w];
    if i :| 0 <= i < |waiting| && !waiting[i].trigger.Manual? {
      assert !more[i].trigger.Manual?;
    }
    assert more[|waiting|] == w;
  }

  /** A caller that sets no timer may leave. */
  lemma OthersStillWait(waiting: seq<Waiting>, k: nat)
    requires k < |waiting| && waiting[k].trigger.Manual? && SomeoneWaits(waiting)
    ensures SomeoneWaits(waiting[..k] + waiting[k + 1..])
  {
    var rest := waiting[..k] + waiting[k + 1..];
    var i :| 0 <= i < |waiting| && !waiting[i].trigger.Manual?;
    assert rest[if i < k then i else i - 1] == waiting[i];
  }

  lemma NoneArmed(armed: set<nat>, timer: Option<nat>)
    requires forall id <- armed :: timer == Some(id)
    ensures armed - (if timer.Some? then {timer.value} else {}) == {}
  {
  }

  class RefreshScheduler {
    const interval: int
    const runOnStartup: bool
    /** The timer last set, which may have been cleared since. */
    var timer: Option<nat>
    var last: Option<Report>
    var completed: nat
    var failed: nat
    var busy: bool
    var stopping: bool
    var nextRunAt: Option<int>
    /** The runtime's side: timers that will fire, numbers for new ones, the cycle in flight, and callers about to go on. */
    var armed: set<nat>
    var unused: nat
    var flight: Option<Trigger>
    var waiting: seq<Waiting>
    ghost var log: seq<Event>
    ghost var started: bool

    /** A timer, a cycle or a caller will arm the next timer. */
    ghost predicate Alive() reads this {
      armed != {} || (flight.Some? && !flight.value.Manual?) || SomeoneWaits(waiting)
    }

    ghost predicate Sound() reads this {
      && (forall id <- armed :: timer == Some(id) && id < unused)
      && (busy <==> flight.Some?)
      && Orderly(log) && InFlight(log) == (if busy then 1 else 0)
      && completed == Endings(log, true) && failed == Endings(log, false)
      && (stopping <==> HasStopped(log)) && (stopping ==> armed == {})
    }

    ghost predicate Valid() reads this { Sound() && (started && !stopping ==> Alive()) }

    constructor (interval: int, runOnStartup: bool)
      ensures Valid() && log == [] && !started && !stopping
    {
      this.interval, this.runOnStartup := interval, runOnStartup;
      timer, last, completed, failed, busy, stopping, nextRunAt := None, None, 0, 0, false, false, None;
      armed, unused, flight, waiting, log, started := {}, 0, None, [], [], false;
    }

    /** At most one timer is armed, at most one cycle is in flight, every ended cycle was counted. */
    lemma AtMostOne()
      requires Valid()
      ensures forall a, b | a in armed && b in armed :: a == b
      ensures InFlight(log) <= 1 && completed + failed == Endings(log, true) + Endings(log, false)
      ensures stopping ==> armed == {}
    {
      forall a, b | a in armed && b in armed ensures a == b {
        assert timer == Some(a) && timer == Some(b);
      }
    }

    /** Replaces whatever timer there is, unless the scheduler is stopping. */
    method ScheduleNext(delay: int, now: int)
      requires Sound()
      modifies `timer, `armed, `unused, `nextRunAt, `log
      ensures Valid()
      ensures old(stopping) ==> unchanged(this)
      ensures !old(stopping) ==> timer.Some? && armed == {timer.value} && log == old(log) + [Armed(Max(1000, delay))]
                                 && nextRunAt == Some(now + Max(1000, delay))
    {
      hide Orderly, InFlight, Endings, HasStopped, SomeoneWaits;
      NoneArmed(armed, timer);
      if stopping {
        return;
      }
      if timer.Some? {
        armed := armed - {timer.value};
      }
      var clamped := Max(SHORTEST_TIMER, delay);
      nextRunAt := Some(now + clamped);
      timer, armed, unused := Some(unused), armed + {unused}, unused + 1;
      StaysOrderly(log, Armed(clamped));
      log := log + [Armed(clamped)];
    }

    method Start(jitter: int, now: int)
      requires Valid() && !stopping
      modifies this
      ensures Valid() && started && armed != {} && waiting == old(waiting)
      ensures log == old(log) + [Armed(if runOnStartup then 1500 else Max(5000, interval + jitter))]
    {
      started := true;
      ScheduleNext(if runOnStartup then STARTUP_DELAY else Max(MIN_DELAY, interval + jitter), now);
    }

    /** Begins a cycle unless one is in flight; a caller turned away goes on with no report. */
    method RunOnce(trigger: Trigger) returns (began: bool)
      requires Sound() && (stopping ==> !trigger.Timer?)
      requires started && !stopping && trigger.Manual? ==> Alive()
      modifies `busy, `flight, `waiting, `log
      ensures Valid()
      ensures began <==> !old(busy)
      ensures began ==> busy && flight == Some(trigger) && log == old(log) + [Began(trigger)] && waiting == old(waiting)
      ensures !began ==> flight == old(flight) && log == old(log) && waiting == old(waiting) + [Waiting(trigger, None)]
    {
      hide Orderly, Endings, HasStopped, SomeoneWaits;
      if busy {
        waiting := waiting + [Waiting(trigger, None)];
        OneMoreWaits(old(waiting), Waiting(trigger, None));
        return false;
      }
      busy, flight := true, Some(trigger);
      StaysOrderly(log, Began(trigger));
      log := log + [Began(trigger)];
      return true;
    }

    /** A timer fires. */
    method Fire(id: nat)
      requires Valid() && id in armed
      modifies this
      ensures Valid() && started == old(started) && armed == {}
      ensures !old(busy) ==> flight == Some(Timer) && log == old(log) + [Began(Timer)]
      ensures old(busy) ==> log == old(log) && waiting == old(waiting) + [Waiting(Timer, None)]
    {
      NoneArmed(armed, timer);
      armed, timer := armed - {id}, None;
      var began := RunOnce(Timer);
    }

    /** Only a report of completion counts as one. */
    method CountEnding(report: Option<Report>)
      modifies `last, `completed, `failed
      ensures last == if report.Some? then report else old(last)
      ensures completed == old(completed) + if report.Some? && report.value.completed then 1 else 0
      ensures failed == old(failed) + if report.Some? && report.value.completed then 0 else 1
    {
      if report.Some? {
        last := report;
        if report.value.completed {
          completed := completed + 1;
        } else {
          failed := failed + 1;
        }
      } else {
        failed := failed + 1;
      }
    }

    /** The cycle in flight ends with a report, or throws. */
    method Settle(report: Option<Report>)
      requires Valid() && busy
      modifies this
      ensures Valid() && !busy && started == old(started) && armed == old(armed) && stopping == old(stopping)
      ensures log == old(log) + [Ended(report.Some? && report.value.completed)]
      ensures completed + failed == old(completed) + old(failed) + 1
      ensures waiting == old(waiting) + [Waiting(old(flight).value, report)]
      ensures last == if report.Some? then report else old(last)
    {
      hide Orderly, HasStopped, SomeoneWaits, InFlight, Endings;
      ghost var e := Ended(report.Some? && report.value.completed);
      CountEnding(report);
      waiting := waiting + [Waiting(flight.value, report)];
      OneMoreWaits(old(waiting), Waiting(flight.value, report));
      busy, flight := false, None;
      StaysOrderly(log, e);
      log := log + [e];
    }

    /** A caller goes on after its cycle: all but plain manual callers set the next timer, unless the scheduler stops. */
    method Continue(k: nat, jitter: int, now: int)
      requires Valid() && k < |waiting|
      modifies this
      ensures Valid() && started == old(started) && stopping == old(stopping) && busy == old(busy) && flight == old(flight)
      ensures waiting == old(waiting)[..k] + old(waiting)[k + 1..]
      ensures old(waiting)[k].trigger.Manual? || stopping ==> log == old(log) && armed == old(armed)
      ensures !old(waiting)[k].trigger.Manual? && !stopping
              ==> var report := if old(waiting)[k].trigger.Timer? then last else old(waiting)[k].report;
                  var consumed := if report.Some? then report.value.duration else 0;
                  log == old(log) + [Armed(Max(5000, interval - consumed + jitter))]
    {
      var w := waiting[k];
      ghost var before := waiting;
      waiting := waiting[..k] + waiting[k + 1..];
      if stopping {
        return;
      }
      if w.trigger.Manual? {
        if SomeoneWaits(before) {
          OthersStillWait(before, k);
        }
        return;
      }
      var report := if w.trigger.Timer? then last else w.report;
      var consumed := if report.Some? then report.value.duration else 0;
      ScheduleNext(Max(MIN_DELAY, interval - consumed + jitter), now);
    }

    /** The manual trigger of the internal API: sets the schedule anew once its cycle is over. */
    method TriggerNow() returns (begun: bool)
      requires Valid()
      modifies this
      ensures Valid() && started == old(started) && stopping == old(stopping)
      ensures begun <==> !old(busy)
      ensures !begun ==> unchanged(this)
      ensures begun ==> flight == Some(RunNow) && armed == {} && log == old(log) + [Began(RunNow)]
    {
      hide Orderly, InFlight, Endings, HasStopped, SomeoneWaits, MayFollow;
      if busy {
        return false;
      }
      NoneArmed(armed, timer);
      if timer.Some? {
        armed := armed - {timer.value};
      }
      begun := RunOnce(RunNow);
    }

    method RunManually() returns (begun: bool)
      requires Valid()
      modifies this
      ensures Valid() && started == old(started) && stopping == old(stopping) && armed == old(armed)
      ensures begun <==> !old(busy)
      ensures log == if begun then old(log) + [Began(Manual)] else old(log)
    {
      begun := RunOnce(Manual);
    }

    /** Clears the timer for good; the cycle in flight, if any, goes on. */
    method Halt()
      requires Valid()
      modifies this
      ensures Valid() && stopping && armed == {} && busy == old(busy) && flight == old(flight) && waiting == old(waiting)
      ensures log == old(log) + [Stopped] && started == old(started)
    {
      hide Orderly, InFlight, Endings, HasStopped;
      NoneArmed(armed, timer);
      stopping := true;
      if timer.Some? {
        armed := armed - {timer.value};
      }
      timer := None;
      StaysOrderly(log, Stopped);
      log := log + [Stopped];
    }

    /**
     * Stops for good, and looks every 200 milliseconds whether the cycle in flight is over, until it is or the grace
     * period is used up; meanwhile anything may happen. No timer is armed afterwards, whatever did.
     */
    method Stop(grace: int) returns (waited: int)
      requires Valid()
      modifies this
      ensures Valid() && stopping && armed == {} && started == old(started)
      ensures old(log) + [Stopped] <= log
      ensures !old(busy) || grace <= 0 ==> log == old(log) + [Stopped] && waited == 0
      ensures busy ==> waited >= grace
      ensures waited > 0 ==> waited >= 200
    {
      hide Orderly, InFlight, Endings, HasStopped, SomeoneWaits;
      Halt();
      waited := 0;
      while busy && waited < grace
        invariant Valid() && stopping && started == old(started)
        invariant old(log) + [Stopped] <= log && waited >= 0 && (waited > 0 ==> waited >= POLL)
        invariant !old(busy) || grace <= 0 ==> log == old(log) + [Stopped] && waited == 0 && busy == old(busy)
        decreases grace - waited
      {
        var late: nat, events: nat := *, *;
        waited := waited + POLL + late;
        ghost var before := log;
        Meanwhile(events);
        assert old(log) + [Stopped] <= before <= log;
      }
    }

    /** Any number of events, in any order. */
    method Meanwhile(events: nat)
      requires Valid()
      modifies this
      ensures Valid() && started == old(started) && (old(stopping) ==> stopping) && old(log) <= log
    {
      for i := 0 to events
        invariant Valid() && started == old(started) && (old(stopping) ==> stopping) && old(log) <= log
      {
        ghost var before := log;
        Happen();
        assert old(log) <= before <= log;
      }
    }

    /** One event, if it can happen now. */
    method Happen()
      requires Valid()
      modifies this
      ensures Valid() && started == old(started) && (old(stopping) ==> stopping) && old(log) <= log
    {
      hide Orderly, InFlight, Endings, HasStopped, SomeoneWaits;
      var choice: int, id: nat, k: nat, jitter: int, now: int, report: Option<Report> := *, *, *, *, *, *;
      if choice == 0 && id in armed {
        Fire(id);
      } else if choice == 1 && busy {
        Settle(report);
      } else if choice == 2 && k < |waiting| {
        Continue(k, jitter, now);
      } else if choice == 3 {
        var begun := TriggerNow();
      } else if choice == 4 {
        var begun := RunManually();
      } else if choice == 5 {
        Halt();
      }
    }

    /** Any `steps` events, in any order, after a start. */
    method Operate(steps: nat, startJitter: int)
      requires Valid() && !started && !stopping && log == []
      modifies this
      ensures Valid() && started
      ensures Orderly(log) && InFlight(log) <= 1 && (forall a, b | a in armed && b in armed :: a == b)
      ensures completed == Endings(log, true) && failed == Endings(log, false)
      ensures stopping ==> armed == {}
      ensures !stopping ==> Alive()
    {
      Start(startJitter, 0);
      Meanwhile(steps);
      AtMostOne();
    }
  }
}
