/**
 * The trailing-edge debounce around handleScroll (src/components/Navbar.tsx),
 * as a deterministic state machine over an explicit millisecond clock.
 *
 * `pending` is the deadline of the scheduled recomputation, if any. Moving the
 * clock forward to `t` fires a pending recomputation whose deadline is at or
 * before `t`; a scroll event at time `t` is handled after that.
 */
module Debounce {
  import opened Wrappers

  /** The delay passed to setTimeout, in milliseconds. */
  const Delay: int := 100

  datatype Timer = Timer(now: int, pending: Option<int>)

  /** The timer as set up at mount: nothing pending. */
  function Idle(now: int): Timer {
    Timer(now, None)
  }

  /** A scroll event at the current time: cancel whatever is pending, schedule a recomputation `Delay` out. */
  function Schedule(tm: Timer): Timer {
    tm.(pending := Some(tm.now + Delay))
  }

  /** Teardown: cancel whatever is pending. */
  function Cancel(tm: Timer): Timer {
    tm.(pending := None)
  }

  /** Move the clock to `t`; the second component tells whether the pending recomputation ran meanwhile. */
  function Advance(tm: Timer, t: int): (Timer, bool)
    requires tm.now <= t
  {
    match tm.pending
    case Some(d) => if d <= t then (Timer(t, None), true) else (Timer(t, tm.pending), false)
    case None => (Timer(t, None), false)
  }

  /** 1 when a recomputation scheduled before the burst is still due at time `t`, otherwise 0. */
  function DueBy(tm: Timer, t: int): nat {
    if tm.pending.Some? && tm.pending.value <= t then 1 else 0
  }

  /** The event times are in order and none is before the clock. */
  predicate Ordered(tm: Timer, ts: seq<int>) {
    (|ts| > 0 ==> tm.now <= ts[0]) && forall i :: 0 < i < |ts| ==> ts[i - 1] <= ts[i]
  }

  /**
   * A run of scroll events at the times `ts`: before each one the clock moves
   * to its time (possibly firing the pending recomputation), then the event
   * reschedules. The result is the final timer and the number of recomputations.
   */
  function Run(tm: Timer, ts: seq<int>): (r: (Timer, nat))
    requires Ordered(tm, ts)
    ensures r.0.now == if ts == [] then tm.now else ts[|ts| - 1]
    decreases |ts|
  {
    if ts == [] then (tm, 0)
    else
      var (tm1, fired) := Advance(tm, ts[0]);
      var (tm2, n) := Run(Schedule(tm1), ts[1..]);
      (tm2, n + if fired then 1 else 0)
  }

  /** A run extended by one more event is the shorter run followed by that event's step. */
  lemma {:induction false} RunSnoc(tm: Timer, ts: seq<int>, t: int)
    requires Ordered(tm, ts + [t])
    ensures Ordered(tm, ts)
    ensures Run(tm, ts).0.now <= t
    ensures Run(tm, ts + [t]) ==
      (Schedule(Advance(Run(tm, ts).0, t).0), Run(tm, ts).1 + if Advance(Run(tm, ts).0, t).1 then 1 else 0)
    decreases |ts|
  {
    assert Ordered(tm, ts) by {
      forall i | 0 < i < |ts| ensures ts[i - 1] <= ts[i] {
        assert (ts + [t])[i - 1] == ts[i - 1] && (ts + [t])[i] == ts[i];
      }
    }
    if ts == [] {
      assert [t][1..] == [];
    } else {
      assert (ts + [t])[1..] == ts[1..] + [t];
      var tm1 := Schedule(Advance(tm, ts[0]).0);
      RunSnoc(tm1, ts[1..], t);
    }
  }

  /** The number of consecutive event pairs separated by at least `Delay`. */
  function LongGaps(ts: seq<int>): nat {
    if |ts| < 2 then 0
    else (if ts[0] + Delay <= ts[1] then 1 else 0) + LongGaps(ts[1..])
  }

  /**
   * A run of scroll events recomputes once per gap of at least `Delay`, plus
   * once if a recomputation was already due by the first event; afterwards
   * exactly one recomputation is pending, `Delay` after the last event.
   */
  lemma {:induction false} RunCount(tm: Timer, ts: seq<int>)
    requires |ts| > 0 && Ordered(tm, ts)
    ensures Run(tm, ts).1 == DueBy(tm, ts[0]) + LongGaps(ts)
    ensures Run(tm, ts).0 == Timer(ts[|ts| - 1], Some(ts[|ts| - 1] + Delay))
    decreases |ts|
  {
    var (tm1, fired) := Advance(tm, ts[0]);
    var tm' := Schedule(tm1);
    assert tm' == Timer(ts[0], Some(ts[0] + Delay));
    if |ts| > 1 {
      assert Ordered(tm', ts[1..]);
      RunCount(tm', ts[1..]);
      assert DueBy(tm', ts[1]) == if ts[0] + Delay <= ts[1] then 1 else 0;
    }
  }

  /** A run whose consecutive events are less than `Delay` apart contains no long gap. */
  lemma {:induction false} NoLongGaps(ts: seq<int>)
    requires forall i :: 0 < i < |ts| ==> ts[i] < ts[i - 1] + Delay
    ensures LongGaps(ts) == 0
  {
    if |ts| >= 2 {
      assert ts[1] < ts[0] + Delay;
      NoLongGaps(ts[1..]);
    }
  }

  /**
   * A burst of scroll events less than `Delay` apart, starting with nothing
   * pending, recomputes nothing while it lasts, then recomputes exactly once,
   * `Delay` after the last event, and not a moment earlier.
   */
  lemma Burst(tm: Timer, ts: seq<int>, t: int)
    requires |ts| > 0 && Ordered(tm, ts) && tm.pending == None
    requires forall i :: 0 < i < |ts| ==> ts[i] < ts[i - 1] + Delay
    requires ts[|ts| - 1] <= t
    ensures Run(tm, ts).1 == 0
    ensures Advance(Run(tm, ts).0, t).1 <==> t >= ts[|ts| - 1] + Delay
    ensures t >= ts[|ts| - 1] + Delay ==> Advance(Run(tm, ts).0, t).0.pending == None
  {
    RunCount(tm, ts);
    NoLongGaps(ts);
  }

  /** After teardown nothing is pending, and no later moment fires a recomputation. */
  lemma CancelSilences(tm: Timer, t: int)
    requires tm.now <= t
    ensures Cancel(tm).pending == None
    ensures !Advance(Cancel(tm), t).1 && Advance(Cancel(tm), t).0 == Idle(t)
  {
  }
}
