/** The millisecond timers of the firmware, on a 32-bit clock that wraps around. */
module Timer {
  import opened Bytes

  /** What the 32-bit tick counter shows at true time `t`. */
  function Clock(t: nat): word32 {
    t % TWO32
  }

  datatype State = State(active: bool, start: word32, interval: word32)

  function Armed(now: word32, interval: word32): State {
    State(true, now, interval)
  }

  function Advanced(t: State): State {
    State(true, (t.start + t.interval) % TWO32, t.interval)
  }

  /** The test of timerExpired, with its two branches in 32-bit arithmetic. */
  predicate Due(t: State, now: word32) {
    && t.active
    && (if now > t.start then now - t.start > t.interval
        else ((TWO32 - 1 - t.start) + now + 1) % TWO32 >= t.interval)
  }

  class Timer {
    var active: bool
    var start: word32
    var interval: word32

    function View(): State
      reads this
    {
      State(active, start, interval)
    }

    constructor ()
      ensures View() == State(false, 0, 0)
    {
      active, start, interval := false, 0, 0;
    }

    method Set(now: word32, interval: word32)
      modifies this
      ensures View() == Armed(now, interval)
    {
      this.active := true;
      this.start := now;
      this.interval := interval;
    }

    method Stop()
      modifies this`active
      ensures !active
    {
      active := false;
    }

    method Reset()
      modifies this`active, this`start
      ensures View() == Advanced(old(View()))
    {
      active := true;
      start := (start + interval) % TWO32;
    }

    method Restart(now: word32)
      modifies this`active, this`start
      ensures View() == Armed(now, old(interval))
    {
      active := true;
      start := now;
    }

    method Expired(now: word32) returns (expired: bool)
      modifies this`active
      ensures expired == Due(old(View()), now)
      ensures active == (old(active) && !expired)
    {
      if !active { return false; }
      if now > start {
        var diff := now - start;
        if diff > interval {
          active := false;
          return true;
        } else {
          return false;
        }
      } else {
        if ((TWO32 - 1 - start) + now + 1) % TWO32 >= interval {
          active := false;
          return true;
        } else {
          return false;
        }
      }
    }
  }

  // ----- one interval

  /**
   Armed at true time `s` and polled at true time `t`, less than a full turn of the clock later,
   the timer is due after its interval, and at the very end of it just when the clock has wrapped
   around since (or the interval is empty).
   */
  lemma DueExactly(timer: State, s: nat, t: nat)
    requires timer.active && timer.start == Clock(s) && s <= t < s + TWO32
    ensures Due(timer, Clock(t)) <==>
      t - s > timer.interval || (t - s == timer.interval && Clock(t) <= Clock(s))
  {
    var e := t - s;
    assert Clock(t) == if Clock(s) + e < TWO32 then Clock(s) + e else Clock(s) + e - TWO32;
  }

  lemma DueIsActive(t: State, now: word32)
    ensures Due(t, now) ==> t.active
  {
  }

  datatype Event = Set(interval: word32) | Stop | Reset | Restart | Poll | Tick

  datatype Run = Run(timer: State, now: nat, armings: nat, expiries: nat)

  function Step(r: Run, e: Event): Run {
    match e
    case Set(i) => r.(timer := Armed(Clock(r.now), i), armings := r.armings + 1)
    case Stop => r.(timer := r.timer.(active := false))
    case Reset => r.(timer := Advanced(r.timer), armings := r.armings + 1)
    case Restart => r.(timer := Armed(Clock(r.now), r.timer.interval), armings := r.armings + 1)
    case Poll => if Due(r.timer, Clock(r.now)) then r.(timer := r.timer.(active := false), expiries := r.expiries + 1)
      else r
    case Tick => r.(now := r.now + 1)
  }

  function Steps(r: Run, events: seq<Event>): Run {
    if events == [] then r else Step(Steps(r, events[..|events| - 1]), events[|events| - 1])
  }

  /** In every history a timer expires at most once each time it is armed. */
  lemma {:induction false} AtMostOncePerArming(timer: State, now: nat, events: seq<Event>)
    requires !timer.active
    ensures var r := Steps(Run(timer, now, 0, 0), events);
      r.expiries + (if r.timer.active then 1 else 0) <= r.armings
    decreases |events|
  {
    if events != [] {
      AtMostOncePerArming(timer, now, events[..|events| - 1]);
    }
  }

  // ----- periodic use

  /** The ticks at which a timer fires that is polled every tick and rearmed with timerReset each time. */
  function Firings(t: State, now: nat, ticks: nat): (fired: seq<nat>)
    decreases ticks
  {
    if ticks == 0 then []
    else if Due(t, Clock(now)) then [now] + Firings(Advanced(t), now + 1, ticks - 1)
    else Firings(t, now + 1, ticks - 1)
  }

  /** `k` intervals of length `i` after `s`. */
  function At(s: nat, i: nat, k: nat): nat {
    s + k * i
  }

  lemma AtNext(s: nat, i: nat, k: nat)
    ensures At(s, i, k + 1) == At(s + i, i, k) && At(s, i, 0) == s
  {
    assert (k + 1) * i == k * i + i;
  }

  /**
   However long it runs and however often the clock wraps around, the k-th firing comes at k
   intervals after the start or one tick later, and none is missed.
   */
  lemma {:induction false} NoDrift(t: State, s: nat, now: nat, ticks: nat)
    requires t.active && t.start == Clock(s) && 1 <= t.interval < TWO32 - 1 && s <= now <= s + t.interval + 1
    ensures var f := Firings(t, now, ticks);
      && (forall k :: 0 <= k < |f| ==> At(s, t.interval, k + 1) <= f[k] <= At(s, t.interval, k + 1) + 1)
      && now + ticks <= At(s, t.interval, |f| + 1) + 1
    decreases ticks
  {
    hide At, Due, Clock;
    var f := Firings(t, now, ticks);
    AtNext(s, t.interval, 0);
    AtNext(s + t.interval, t.interval, 0);
    if ticks != 0 {
      DueExactly(t, s, now);
      if Due(t, Clock(now)) {
        var u := Advanced(t);
        AdvancedStart(t, s);
        NoDrift(u, s + t.interval, now + 1, ticks - 1);
        var g := Firings(u, now + 1, ticks - 1);
        assert f == [now] + g;
        AtNext(s, t.interval, |f|);
        forall k | 0 <= k < |f|
          ensures At(s, t.interval, k + 1) <= f[k] <= At(s, t.interval, k + 1) + 1
        {
          AtNext(s, t.interval, k);
          if k > 0 {
            var due := At(s + t.interval, t.interval, (k - 1) + 1);
            assert due <= g[k - 1] <= due + 1;
          }
        }
      } else {
        NoDrift(t, s, now + 1, ticks - 1);
      }
    }
  }

  lemma AdvancedStart(t: State, s: nat)
    requires t.start == Clock(s)
    ensures Advanced(t).start == Clock(s + t.interval)
  {
  }

  /** The same with timerRestart, which starts the next interval when the poll happens. */
  function RestartFirings(t: State, now: nat, ticks: nat): (fired: seq<nat>)
    decreases ticks
  {
    if ticks == 0 then []
    else if Due(t, Clock(now)) then [now] + RestartFirings(Armed(Clock(now), t.interval), now + 1, ticks - 1)
    else RestartFirings(t, now + 1, ticks - 1)
  }

  /**
   The length of a period that starts at true time `s`: one tick more than the interval, unless the clock wraps
   within it.
   */
  function Period(s: nat, interval: nat): nat {
    if Clock(s + interval) <= Clock(s) then interval else interval + 1
  }

  /** When the period began that ends with firing `k`. */
  function Began(s: nat, fired: seq<nat>, k: nat): nat
    requires k <= |fired|
  {
    if k == 0 then s else fired[k - 1]
  }

  /** Firing `k` comes one period after the one before it. */
  predicate OnTime(s: nat, interval: nat, fired: seq<nat>, k: nat)
    requires k < |fired|
  {
    fired[k] == Began(s, fired, k) + Period(Began(s, fired, k), interval)
  }

  lemma FiresAfterPeriod(t: State, s: nat, now: nat)
    requires t.active && t.start == Clock(s) && t.interval < TWO32 - 1 && s <= now <= s + Period(s, t.interval)
    ensures Due(t, Clock(now)) <==> now == s + Period(s, t.interval)
  {
    DueExactly(t, s, now);
  }

  lemma PeriodBounds(s: nat, interval: nat)
    requires interval < TWO32
    ensures interval <= Period(s, interval) <= interval + 1
    ensures 1 <= interval && Period(s, interval) == interval ==> Turns(s) < Turns(s + interval)
  {
  }

  /** Over any number of clock wraps, each firing comes one period after the one before it, and none is missed. */
  lemma {:induction false} RestartPeriods(t: State, s: nat, now: nat, ticks: nat)
    requires t.active && t.start == Clock(s) && 1 <= t.interval < TWO32 - 1 && s <= now <= s + Period(s, t.interval)
    ensures forall k :: 0 <= k < |RestartFirings(t, now, ticks)| ==>
      OnTime(s, t.interval, RestartFirings(t, now, ticks), k)
    ensures var f := RestartFirings(t, now, ticks);
      now + ticks <= Began(s, f, |f|) + Period(Began(s, f, |f|), t.interval)
    decreases ticks
  {
    hide Due, Period, Clock;
    var f := RestartFirings(t, now, ticks);
    if ticks != 0 {
      FiresAfterPeriod(t, s, now);
      if Due(t, Clock(now)) {
        var u := Armed(Clock(now), t.interval);
        PeriodBounds(now, t.interval);
        RestartPeriods(u, now, now + 1, ticks - 1);
        var g := RestartFirings(u, now + 1, ticks - 1);
        assert f == [now] + g;
        forall k | 0 <= k < |f|
          ensures OnTime(s, t.interval, f, k)
        {
          if k > 0 {
            assert OnTime(now, t.interval, g, k - 1);
          }
        }
      } else {
        RestartPeriods(t, s, now + 1, ticks - 1);
      }
    }
  }

  /** How often the clock has wrapped around by true time `t`. */
  function Turns(t: nat): nat {
    t / TWO32
  }

  lemma TurnsGrow(s: nat, t: nat)
    requires s <= t
    ensures Turns(s) <= Turns(t)
  {
  }

  /**
   So the error that the documentation warns of grows by a tick with each firing, less at most a tick for
   each turn of the clock.
   */
  lemma {:induction false} RestartDrifts(t: State, s: nat, now: nat, ticks: nat, k: nat)
    requires t.active && t.start == Clock(s) && 1 <= t.interval < TWO32 - 1 && s <= now <= s + Period(s, t.interval)
    requires k < |RestartFirings(t, now, ticks)|
    ensures var fired := RestartFirings(t, now, ticks)[k];
      At(s, t.interval + 1, k + 1) - (Turns(fired) - Turns(s)) <= fired <= At(s, t.interval + 1, k + 1)
    decreases k
  {
    hide At, Turns, Period, Clock, RestartFirings;
    var f := RestartFirings(t, now, ticks);
    RestartPeriods(t, s, now, ticks);
    assert OnTime(s, t.interval, f, k);
    var from := Began(s, f, k);
    PeriodBounds(from, t.interval);
    TurnsGrow(from, f[k]);
    AtNext(s, t.interval + 1, 0);
    AtStep(s, t.interval + 1, k);
    if k > 0 {
      RestartDrifts(t, s, now, ticks, k - 1);
    }
  }

  lemma AtStep(s: nat, i: nat, k: nat)
    ensures At(s, i, k + 1) == At(s, i, k) + i
  {
    assert (k + 1) * i == k * i + i;
  }

  /**
   A period that the clock's wrap makes shorter: from 2^32 - 5 with interval 10 the timer fires after exactly 10
   ticks.
   */
  lemma RestartCanBeExact()
    ensures var s := TWO32 - 5;
      RestartFirings(Armed(Clock(s), 10), s + 10, 1) == [s + 10] && Period(s, 10) == 10
  {
    var s: nat := TWO32 - 5;
    assert Clock(s) == s && Clock(s + 10) == 5;
    assert Due(Armed(Clock(s), 10), Clock(s + 10));
    assert RestartFirings(Armed(Clock(s + 10), 10), s + 11, 0) == [];
  }
}
