/**
 The timer queue of a CAN network interface. Times are nanoseconds. The pairing
 heap is represented by what it holds: the armed timers, of which `First` is one
 with the least start time.
 */
module CanTimers {
  import opened Options
  import opened Words

  datatype Timer = Timer(armed: bool, start: int, interval: nat)

  datatype Firing = Firing(timer: nat, due: int)

  /** A timer after it has fired once. */
  function Requeued(t: Timer): Timer
  {
    if t.interval > 0 then t.(start := t.start + t.interval) else t.(armed := false)
  }

  /** How often a timer fires until `now`. */
  function Fires(t: Timer, now: int): (n: nat)
  {
    if !t.armed || t.start > now then 0
    else if t.interval == 0 then 1
    else (now - t.start) / t.interval + 1
  }

  /** The times at which it does so. */
  function Schedule(t: Timer, n: nat): (dues: seq<int>)
    ensures |dues| == n
    decreases n
  {
    if n == 0 then [] else [t.start] + Schedule(Requeued(t), n - 1)
  }

  /** A timer after it has fired `n` times. */
  function Settled(t: Timer, n: nat): Timer
  {
    if n == 0 then t else Requeued(Settled(t, n - 1))
  }

  lemma {:induction false} SettledPeriodic(t: Timer, n: nat)
    requires t.interval > 0
    ensures Settled(t, n) == t.(start := t.start + n * t.interval)
  {
    if n > 0 {
      SettledPeriodic(t, n - 1);
    }
  }

  lemma DivideOnce(x: int, d: int)
    requires d > 0
    ensures (x - d) / d == x / d - 1
  {
    DivMod(x - d, d, x / d - 1, x % d);
  }

  lemma OneLess(t: Timer, now: int)
    requires t.armed && t.start <= now
    ensures Fires(t, now) == Fires(Requeued(t), now) + 1
  {
    if t.interval > 0 {
      var x := now - t.start;
      if x >= t.interval {
        DivideOnce(x, t.interval);
      } else {
        DivMod(x, t.interval, 0, x);
      }
    }
  }

  lemma {:induction false} ScheduleAt(t: Timer, n: nat, k: nat)
    requires k < n && (t.interval > 0 || n == 1)
    ensures Schedule(t, n)[k] == t.start + k * t.interval
    decreases k
  {
    if k > 0 {
      ScheduleAt(Requeued(t), n - 1, k - 1);
    }
  }

  /** What is still to fire among the first `n` timers. */
  function Left(timers: seq<Timer>, now: int, n: nat): nat
    requires n <= |timers|
  {
    if n == 0 then 0 else Left(timers, now, n - 1) + Fires(timers[n - 1], now)
  }

  lemma {:induction false} LeftLess(timers: seq<Timer>, now: int, id: nat, n: nat)
    requires id < |timers| && n <= |timers| && timers[id].armed && timers[id].start <= now
    ensures Left(timers, now, n) == Left(timers[id := Requeued(timers[id])], now, n) + if id < n then 1 else 0
  {
    if n > 0 {
      LeftLess(timers, now, id, n - 1);
      OneLess(timers[id], now);
      hide Fires;
    }
  }

  /** The due times of one timer. */
  function DuesOf(fired: seq<Firing>, id: nat): (dues: seq<int>)
  {
    if fired == [] then []
    else
      var f := fired[|fired| - 1];
      DuesOf(fired[..|fired| - 1], id) + if f.timer == id then [f.due] else []
  }

  lemma {:induction false} DuesSnoc(fired: seq<Firing>, f: Firing, id: nat)
    ensures DuesOf(fired + [f], id) == DuesOf(fired, id) + if f.timer == id then [f.due] else []
  {
    assert (fired + [f])[..|fired|] == fired;
  }

  predicate InOrder(fired: seq<Firing>)
  {
    forall i, j | 0 <= i < j < |fired| :: fired[i].due <= fired[j].due
  }

  /** No armed timer is due before the last one that fired. */
  ghost predicate Ahead(fired: seq<Firing>, timers: seq<Timer>)
  {
    fired == [] || forall i | 0 <= i < |timers| && timers[i].armed :: fired[|fired| - 1].due <= timers[i].start
  }

  /** What a timer has fired, and what it is still going to fire, is its schedule. */
  ghost predicate OnSchedule(was: Timer, t: Timer, dues: seq<int>, now: int)
  {
    dues + Schedule(t, Fires(t, now)) == Schedule(was, Fires(was, now)) && t == Settled(was, |dues|)
  }

  lemma {:induction false} FiresNext(was: Timer, t: Timer, dues: seq<int>, now: int)
    requires OnSchedule(was, t, dues, now) && t.armed && t.start <= now
    ensures OnSchedule(was, Requeued(t), dues + [t.start], now)
  {
    hide Fires;
    OneLess(t, now);
    var n := Fires(t, now);
    assert Schedule(t, n) == [t.start] + Schedule(Requeued(t), n - 1);
  }

  /** A run of the queue: on schedule so far, in order, and nothing left behind. */
  ghost predicate Progress(was: seq<Timer>, timers: seq<Timer>, fired: seq<Firing>, now: int)
  {
    && |was| == |timers|
    && (forall i | 0 <= i < |was| :: OnSchedule(was[i], timers[i], DuesOf(fired, i), now))
    && InOrder(fired) && Ahead(fired, timers)
  }

  /** A front of the queue. */
  ghost predicate IsFront(timers: seq<Timer>, id: nat)
  {
    && id < |timers| && timers[id].armed
    && forall i | 0 <= i < |timers| && timers[i].armed :: timers[id].start <= timers[i].start
  }

  ghost predicate NoneArmed(timers: seq<Timer>)
  {
    forall i | 0 <= i < |timers| :: !timers[i].armed
  }

  lemma {:induction false} NothingFired(timers: seq<Timer>, now: int)
    ensures Progress(timers, timers, [], now)
  {
    forall i | 0 <= i < |timers|
      ensures OnSchedule(timers[i], timers[i], DuesOf([], i), now)
    {
      assert [] + Schedule(timers[i], Fires(timers[i], now)) == Schedule(timers[i], Fires(timers[i], now));
    }
  }

  lemma {:induction false} FrontFires(was: seq<Timer>, timers: seq<Timer>, fired: seq<Firing>, now: int, id: nat)
    requires Progress(was, timers, fired, now) && IsFront(timers, id) && timers[id].start <= now
    ensures Progress(was, timers[id := Requeued(timers[id])], fired + [Firing(id, timers[id].start)], now)
  {
    var t := timers[id];
    var f := fired + [Firing(id, t.start)];
    var timers' := timers[id := Requeued(t)];
    assert InOrder(f) && Ahead(f, timers');
    hide InOrder;
    hide Ahead;
    forall i | 0 <= i < |was|
      ensures OnSchedule(was[i], timers'[i], DuesOf(f, i), now)
    {
      DuesSnoc(fired, Firing(id, t.start), i);
      assert OnSchedule(was[i], timers[i], DuesOf(fired, i), now);
      if i == id {
        FiresNext(was[i], t, DuesOf(fired, i), now);
      }
    }
  }

  /** When nothing is due any more, every timer has fired its whole schedule. */
  lemma {:induction false} AllFired(was: seq<Timer>, timers: seq<Timer>, fired: seq<Firing>, now: int, i: nat)
    requires Progress(was, timers, fired, now) && i < |was|
    requires timers[i].armed ==> timers[i].start > now
    ensures DuesOf(fired, i) == Schedule(was[i], Fires(was[i], now))
    ensures timers[i] == Settled(was[i], Fires(was[i], now))
  {
    assert OnSchedule(was[i], timers[i], DuesOf(fired, i), now);
    assert Fires(timers[i], now) == 0 && Schedule(timers[i], 0) == [];
  }

  lemma {:induction false} Finished(was: seq<Timer>, timers: seq<Timer>, fired: seq<Firing>, now: int)
    requires Progress(was, timers, fired, now)
    requires forall i | 0 <= i < |timers| && timers[i].armed :: timers[i].start > now
    ensures |was| == |timers| && InOrder(fired)
    ensures forall i | 0 <= i < |was| :: DuesOf(fired, i) == Schedule(was[i], Fires(was[i], now))
    ensures forall i | 0 <= i < |was| :: timers[i] == Settled(was[i], Fires(was[i], now))
  {
    forall i | 0 <= i < |was|
      ensures DuesOf(fired, i) == Schedule(was[i], Fires(was[i], now))
      ensures timers[i] == Settled(was[i], Fires(was[i], now))
    {
      AllFired(was, timers, fired, now, i);
    }
  }

  lemma NoFirings(failing: set<nat>)
    ensures !AnyFailed([], failing)
  {
  }

  ghost predicate AnyFailed(fired: seq<Firing>, failing: set<nat>)
  {
    exists k | 0 <= k < |fired| :: fired[k].timer in failing
  }

  lemma AnyFailedSnoc(fired: seq<Firing>, f: Firing, failing: set<nat>)
    ensures AnyFailed(fired + [f], failing) <==> AnyFailed(fired, failing) || f.timer in failing
  {
    assert (fired + [f])[|fired|] == f;
    if AnyFailed(fired, failing) {
      var k :| 0 <= k < |fired| && fired[k].timer in failing;
      assert (fired + [f])[k] == fired[k];
    }
  }

  class Net {
    var time: int
    var next: int
    var timers: seq<Timer>

    /** The front of the queue. */
    method First() returns (id: Option<nat>)
      ensures id.None? <==> NoneArmed(timers)
      ensures id.Some? ==> IsFront(timers, id.value)
    {
      id := None;
      var k := 0;
      while k < |timers|
        invariant k <= |timers|
        invariant id.None? <==> NoneArmed(timers[..k])
        invariant id.Some? ==> IsFront(timers[..k], id.value)
      {
        if timers[k].armed && (id.None? || timers[k].start < timers[id.value].start) {
          id := Some(k);
        }
        k := k + 1;
      }
      assert timers[..k] == timers;
    }

    method SetNext()
      modifies `next
      ensures NoneArmed(timers) ==> next == old(next)
      ensures !NoneArmed(timers) ==> exists i: nat :: IsFront(timers, i) && next == timers[i].start
    {
      var id := First();
      if id.Some? {
        next := timers[id.value].start;
      }
    }

    /**
     Moves the clock and fires what is due: every timer exactly on its schedule,
     in the order of the due times. `failing` are the timers whose callback
     reports an error.
     */
    method SetTime(now: int, failing: set<nat>) returns (result: int, ghost fired: seq<Firing>)
      modifies this
      ensures time == now && |timers| == |old(timers)|
      ensures forall i | 0 <= i < |timers| :: DuesOf(fired, i) == Schedule(old(timers)[i], Fires(old(timers)[i], now))
      ensures InOrder(fired)
      ensures forall i | 0 <= i < |timers| :: timers[i] == Settled(old(timers)[i], Fires(old(timers)[i], now))
      ensures forall i | 0 <= i < |timers| && timers[i].armed :: timers[i].start > now
      ensures result == if AnyFailed(fired, failing) then -1 else 0
    {
      hide Progress;
      hide AnyFailed;
      hide Left;
      hide InOrder;
      hide DuesOf;
      hide Schedule;
      hide Fires;
      time, result, fired := now, 0, [];
      ghost var was := timers;
      NothingFired(timers, now);
      NoFirings(failing);
      var id := First();
      while id.Some? && timers[id.value].start <= time
        invariant time == now && Progress(was, timers, fired, now)
        invariant id.None? <==> NoneArmed(timers)
        invariant id.Some? ==> IsFront(timers, id.value)
        invariant result == if AnyFailed(fired, failing) then -1 else 0
        decreases Left(timers, now, |timers|)
      {
        LeftLess(timers, now, id.value, |timers|);
        ghost var f := Firing(id.value, timers[id.value].start);
        FrontFires(was, timers, fired, now, id.value);
        AnyFailedSnoc(fired, f, failing);
        // A periodic timer is queued again before its callback runs.
        timers := timers[id.value := Requeued(timers[id.value])];
        fired := fired + [f];
        if id.value in failing {
          result := -1;
        }
        id := First();
      }
      Finished(was, timers, fired, now);
      SetNext();
    }

    /** Arms a timer; without a start time it is first due after one interval. */
    method Start(id: nat, start: Option<int>, interval: Option<nat>)
      requires id < |timers|
      modifies this
      ensures time == old(time)
      ensures start.None? && interval.None? ==> timers == old(timers)[id := old(timers)[id].(armed := false)]
      ensures start.Some? || interval.Some? ==>
                var d := if interval.Some? then interval.value else 0;
                timers == old(timers)[id := Timer(true, if start.Some? then start.value else time + d, d)]
    {
      Stop(id);
      if start.None? && interval.None? {
        return;
      }
      var d := if interval.Some? then interval.value else 0;
      timers := timers[id := Timer(true, if start.Some? then start.value else time + d, d)];
      SetNext();
    }

    method Stop(id: nat)
      requires id < |timers|
      modifies `timers, `next
      ensures timers == old(timers)[id := old(timers)[id].(armed := false)]
    {
      if timers[id].armed {
        timers := timers[id := timers[id].(armed := false)];
        SetNext();
      }
    }

    /** A one-shot timer, in milliseconds from now. */
    method Timeout(id: nat, timeout: int)
      requires id < |timers|
      modifies this
      ensures time == old(time)
      ensures timers == old(timers)[id := if timeout < 0 then old(timers)[id].(armed := false)
                                          else Timer(true, time + timeout * 1_000_000, 0)]
    {
      if timeout < 0 {
        Stop(id);
      } else {
        Start(id, Some(time + timeout * 1_000_000), None);
      }
    }
  }

  /**
   A one-shot timer that is due fires once and is then stopped; a periodic one at
   every multiple of its interval, and is left with the first that is yet to come.
   */
  lemma {:induction false} ScheduleMeans(t: Timer, now: int)
    requires t.armed
    ensures t.start > now ==> Schedule(t, Fires(t, now)) == []
    ensures t.start <= now && t.interval == 0 ==>
              Schedule(t, Fires(t, now)) == [t.start] && Settled(t, Fires(t, now)) == t.(armed := false)
    ensures t.start <= now && t.interval > 0 ==>
              forall k | 0 <= k < Fires(t, now) :: Schedule(t, Fires(t, now))[k] == t.start + k * t.interval
    ensures t.interval > 0 ==> Settled(t, Fires(t, now)) == t.(start := t.start + Fires(t, now) * t.interval)
    ensures t.start <= now && t.interval > 0 ==> t.start + (Fires(t, now) - 1) * t.interval <= now < t.start + Fires(t, now) * t.interval
  {
    if t.interval > 0 {
      SettledPeriodic(t, Fires(t, now));
    }
    if t.start <= now && t.interval > 0 {
      var x := now - t.start;
      assert x == x / t.interval * t.interval + x % t.interval;
      forall k | 0 <= k < Fires(t, now)
        ensures Schedule(t, Fires(t, now))[k] == t.start + k * t.interval
      {
        ScheduleAt(t, Fires(t, now), k);
      }
    } else if t.start <= now {
      assert Schedule(Requeued(t), 0) == [] && Settled(t, 0) == t;
    }
  }
}
