/** drivers/timer.c: sleeping against a 32-bit tick counter that wraps. */
module Timer {
  import opened Bytes

  const TIMER_HZ := 100

  /** The 32-bit value as a signed number. */
  function AsInt32(w: int): int
    requires 0 <= w < WORD
  {
    if w >= 0x8000_0000 then w - WORD else w
  }

  /** The number of ticks `timer_sleep` computes, with 32-bit arithmetic. */
  function Wanted(ms: nat): nat
    requires ms < WORD
  {
    (ms * TIMER_HZ + 999) % WORD / 1000
  }

  /** The time asked for, in ticks of ten milliseconds, rounded up. */
  function Ticks(ms: nat): (n: nat)
    ensures 10 * n - 10 < ms <= 10 * n || ms == n == 0
  {
    (ms + 9) / 10
  }

  /** The loop condition, for a counter that has been read as `ticks`. */
  predicate Waits(target: nat, ticks: nat)
    requires target < WORD && ticks < WORD
  {
    AsInt32((target - ticks) % WORD) > 0
  }

  /** The counter after `n` interrupts. */
  function Counter(start: nat, n: nat): (ticks: nat)
    ensures ticks < 0x1_0000_0000 && (ticks - start - n) % 0x1_0000_0000 == 0
  {
    (start + n) % WORD
  }

  class Clock {
    var ticks: nat

    constructor ()
      ensures ticks == 0
    {
      ticks := 0;
    }

    /** The interrupt handler. */
    method TimerCallback(ghost start: nat, ghost n: nat)
      requires ticks == Counter(start, n)
      modifies this
      ensures ticks == Counter(start, n + 1) == (old(ticks) + 1) % 0x1_0000_0000
    {
      ticks := (ticks + 1) % WORD;
    }

    /** `timer_sleep`. The counter is looked at again and again; `elapsed` gives how many interrupts in
        all had happened by each look. The result is how often it was looked at before the loop was
        left, or all of them if it was not left. The loop is never left early, and it is left at the
        first look that comes neither early nor more than 2^31 ticks late. */
    method TimerSleep(ms: nat, elapsed: seq<nat>) returns (looks: nat)
      requires ticks < WORD && ms < WORD
      modifies this
      ensures looks <= |elapsed|
      ensures looks < |elapsed| ==> elapsed[looks] >= Wanted(ms)
      ensures forall i | 0 <= i < looks && elapsed[i] <= Wanted(ms) + 0x8000_0000 :: elapsed[i] < Wanted(ms)
      ensures ms <= 42949662 ==> Wanted(ms) == Ticks(ms)
      ensures looks < |elapsed| ==> ticks == Counter(old(ticks), elapsed[looks])
      ensures looks == |elapsed| > 0 ==> ticks == Counter(old(ticks), elapsed[looks - 1])
    {
      WantedExactly(ms);
      var start := ticks;
      var wanted := (ms * TIMER_HZ + 999) % WORD / 1000;
      var target := (ticks + wanted) % WORD;
      looks := 0;
      while looks < |elapsed|
        invariant 0 <= looks <= |elapsed|
        invariant looks > 0 ==> ticks == Counter(start, elapsed[looks - 1])
        invariant forall i | 0 <= i < looks && elapsed[i] <= wanted + 0x8000_0000 :: elapsed[i] < wanted
      {
        ticks := Counter(start, elapsed[looks]);
        if elapsed[looks] <= wanted + 0x8000_0000 {
          WaitsExactly(start, wanted, elapsed[looks]);
        }
        if AsInt32((target - ticks) % WORD) <= 0 { return; }
        looks := looks + 1;
      }
    }
  }

  /** The computed number of ticks is the time asked for, rounded up, exactly up to 42949662 ms; for
      anything longer the multiplication wraps and the sleep is too short. */
  lemma WantedExactly(ms: nat)
    requires ms < WORD
    ensures Wanted(ms) == Ticks(ms) <==> ms <= 42949662
    ensures ms > 42949662 ==> Wanted(ms) < Ticks(ms)
  {
  }

  /** For every start value, a wrapping counter included: a wait of less than 2^31 ticks goes on exactly
      until they have elapsed, as long as nobody looks more than 2^31 ticks too late. */
  lemma WaitsExactly(start: nat, wanted: nat, elapsed: nat)
    requires start < WORD && wanted < 0x8000_0000 && elapsed <= wanted + 0x8000_0000
    ensures Waits(Counter(start, wanted), Counter(start, elapsed)) <==> elapsed < wanted
  {
  }

  // ---------------------------------------------------------------------------
  // Milliseconds
  // ---------------------------------------------------------------------------

  /** The number of interrupts up to time `t`, in milliseconds, when one comes every ten. */
  function TicksBy(t: real): int { (t / 10.0).Floor }

  /** The loop entered at time `from` may be left at time `to`. */
  ghost predicate MayWake(ms: nat, from: real, to: real)
    requires ms < WORD
  {
    from <= to && TicksBy(to) - TicksBy(from) >= Wanted(ms)
  }

  /** The first tick may come right after the call, so a sleep is only sure to last longer than one tick
      less than wanted. With no delay after the last tick it lasts no longer than the ticks wanted, and it
      lasts the time asked for exactly if the call came early enough behind its last tick. */
  lemma SleepLasts(ms: nat, from: real, to: real)
    requires ms < WORD && MayWake(ms, from, to)
    ensures to - from > 10.0 * (Wanted(ms) - 1) as real
    ensures to == 10.0 * (TicksBy(from) + Wanted(ms)) as real ==>
              && to - from <= 10.0 * Wanted(ms) as real
              && (to - from >= ms as real <==> from - 10.0 * TicksBy(from) as real <= (10 * Wanted(ms) - ms) as real)
  {
    var a, b := TicksBy(from), TicksBy(to);
    assert b as real <= to / 10.0 && from / 10.0 < (a + 1) as real && a as real <= from / 10.0;
  }

  /** No better bound holds: the sleep can come as close to that as one likes. */
  lemma SleepCanBeThatShort(ms: nat, slack: real) returns (from: real, to: real)
    requires ms < WORD && Wanted(ms) > 0 && slack > 0.0
    ensures MayWake(ms, from, to) && to - from < 10.0 * (Wanted(ms) - 1) as real + slack
  {
    var early := if slack < 10.0 then slack / 2.0 else 5.0;
    from, to := 10.0 - early, 10.0 * Wanted(ms) as real;
    assert (from / 10.0).Floor == 0;
    assert to / 10.0 == Wanted(ms) as real;
  }

  /** So every sleep of at least one millisecond can be shorter than was asked for. */
  lemma SleepCanBeTooShort(ms: nat)
    requires 0 < ms < WORD
    ensures exists from: real, to: real :: MayWake(ms, from, to) && to - from < ms as real
  {
    WantedExactly(ms);
    if Wanted(ms) == 0 {
      assert MayWake(ms, 0.0, 0.0);
    } else {
      var slack := ms as real - 10.0 * (Wanted(ms) - 1) as real;
      var from, to := SleepCanBeThatShort(ms, slack);
    }
  }
}
