/**
  The slot-reserving limiter after idle time: it does not catch up. Slots reserved
  after a moment at which no caller holds a clock reading start at that moment.
 */
module IdleSlots {
  import opened Arithmetic
  import opened Sums
  import opened CasLimiter

  /** No caller is between reading the clock and reserving. */
  predicate NoReadings(s: Slots) {
    forall w :: 0 <= w < |s.callers| ==> !s.callers[w].HasClock? && !s.callers[w].Loaded?
  }

  /** Since a moment T at which m slots were reserved: readings and new slots are not before T. */
  predicate Since(s: Slots, T: int, m: nat) {
    && s.clock >= T && m <= |s.slots|
    && (forall w :: 0 <= w < |s.callers| && (s.callers[w].HasClock? || s.callers[w].Loaded?) ==> s.callers[w].now >= T)
    && forall i :: m <= i < |s.slots| ==> s.slots[i] >= T
  }

  /** A reserved slot is neither before the cursor nor before the caller's reading. */
  lemma SlotNotBeforeReading(s: Slots, s': Slots, w: nat)
    requires w < |s.callers| && Reserve(s, s', w)
    ensures s'.slots == s.slots + [s'.slots[|s.slots|]]
    ensures s'.slots[|s.slots|] >= s.callers[w].now && s'.slots[|s.slots|] >= s.next
    ensures s'.slots[|s.slots|] == s.callers[w].now || s'.slots[|s.slots|] == s.next
  {
  }

  lemma StepSince(s: Slots, s': Slots, T: int, m: nat)
    requires SlotsStep(s, s') && Since(s, T, m)
    ensures Since(s', T, m)
  {
    if !Tick(s, s') {
      var w: nat :| w < |s.callers| && CallerStep(s, s', w);
      if Reserve(s, s', w) {
        SlotNotBeforeReading(s, s', w);
      }
    }
  }

  lemma {:induction false} RunSince(run: seq<Slots>, interval: nat, j: nat)
    requires IsRun(run, interval) && j < |run| && NoReadings(run[j])
    ensures Since(run[|run| - 1], run[j].clock, |run[j].slots|)
  {
    var n := |run| - 1;
    if j < n {
      assert IsRun(run[..n], interval);
      RunSince(run[..n], interval, j);
      assert SlotsStep(run[n - 1], run[n - 1 + 1]);
      StepSince(run[n - 1], run[n], run[j].clock, |run[j].slots|);
    }
  }

  /** The sleep after a reservation lasts the wait computed from the reading, from when it begins. */
  lemma SleepLastsTheWait(s: Slots, s': Slots, w: nat)
    requires w < |s.callers| && Reserve(s, s', w)
    ensures s'.callers[w].Sleeping? && s'.callers[w].index == |s.slots|
    ensures s'.callers[w].until - s'.clock == s'.slots[|s.slots|] - s.callers[w].now
  {
  }

  /** And until it is over the caller does nothing. */
  lemma {:induction false} SleeperRests(run: seq<Slots>, interval: nat, j: nat, w: nat)
    requires IsRun(run, interval) && j < |run| && w < |run[j].callers| && run[j].callers[w].Sleeping?
    requires run[|run| - 1].clock < run[j].callers[w].until
    ensures var s := run[|run| - 1]; w < |s.callers| && s.callers[w] == run[j].callers[w]
  {
    var n := |run| - 1;
    if j < n {
      assert IsRun(run[..n], interval);
      assert SlotsStep(run[n - 1], run[n - 1 + 1]);
      assert run[n - 1].clock <= run[n].clock;
      SleeperRests(run[..n], interval, j, w);
    }
  }

  // ----- each reserved slot has one caller -----------------------------------------------

  function Indices(returned: seq<Return>): (indices: seq<nat>)
    ensures |indices| == |returned|
    ensures forall k :: 0 <= k < |returned| ==> indices[k] == returned[k].index
  {
    seq(|returned|, k requires 0 <= k < |returned| => returned[k].index)
  }

  function SleepingOn(index: nat): Caller -> nat {
    (c: Caller) => if c.Sleeping? && c.index == index then 1 else 0
  }

  /** A reserved slot's caller sleeps or has returned, once. */
  predicate SlotOnce(s: Slots, index: nat) {
    Times(Indices(s.returned), index) + Sum(s.callers, SleepingOn(index)) == if index < |s.slots| then 1 else 0
  }

  lemma StepKeepsSlot(s: Slots, s': Slots, index: nat)
    requires SlotsStep(s, s') && SlotOnce(s, index)
    ensures SlotOnce(s', index)
  {
    if !Tick(s, s') {
      var w: nat :| w < |s.callers| && CallerStep(s, s', w);
      SumUpdate(s.callers, w, s'.callers[w], SleepingOn(index));
      if Wake(s, s', w) {
        WakeReturns(s, s', w, index);
      }
    }
  }

  lemma WakeReturns(s: Slots, s': Slots, w: nat, index: nat)
    requires w < |s.callers| && Wake(s, s', w)
    ensures Times(Indices(s'.returned), index) ==
            Times(Indices(s.returned), index) + SleepingOn(index)(s.callers[w])
  {
    var k := s.callers[w].index;
    assert Indices(s'.returned) == Indices(s.returned) + [k];
    TimesAppend(Indices(s.returned), [k], index);
  }

  lemma {:induction false} EachSlotOnce(run: seq<Slots>, interval: nat, index: nat)
    requires IsRun(run, interval)
    ensures SlotOnce(run[|run| - 1], index)
  {
    var n := |run| - 1;
    if n == 0 {
      SumZero(run[0].callers, SleepingOn(index));
    } else {
      assert IsRun(run[..n], interval);
      EachSlotOnce(run[..n], interval, index);
      assert SlotsStep(run[n - 1], run[n - 1 + 1]);
      StepKeepsSlot(run[n - 1], run[n], index);
    }
  }

  // ----- how many return after idle time --------------------------------------------------

  /** How many of the numbers are m or more. */
  function CountFrom(xs: seq<nat>, m: nat): nat {
    if xs == [] then 0 else CountFrom(xs[..|xs| - 1], m) + if xs[|xs| - 1] >= m then 1 else 0
  }

  lemma {:induction false} CountStep(xs: seq<nat>, m: nat)
    ensures CountFrom(xs, m) == Times(xs, m) + CountFrom(xs, m + 1)
  {
    if xs != [] {
      CountStep(xs[..|xs| - 1], m);
    }
  }

  lemma {:induction false} CountNone(xs: seq<nat>, m: nat)
    requires forall k :: 0 <= k < |xs| ==> xs[k] < m
    ensures CountFrom(xs, m) == 0
  {
    if xs != [] {
      CountNone(xs[..|xs| - 1], m);
    }
  }

  lemma {:induction false} DistinctInRange(xs: seq<nat>, m: nat, n: nat)
    requires m <= n && (forall k :: 0 <= k < |xs| ==> xs[k] < n) && forall x: nat :: Times(xs, x) <= 1
    ensures CountFrom(xs, m) <= n - m
    decreases n - m
  {
    if m == n {
      CountNone(xs, m);
    } else {
      CountStep(xs, m);
      DistinctInRange(xs, m + 1, n);
    }
  }

  lemma {:induction false} SlotsApart(slots: seq<int>, interval: nat, m: nat, i: nat)
    requires Spaced(slots, interval) && m <= i < |slots|
    ensures slots[i] >= slots[m] + (i - m) * interval
    decreases i
  {
    if i > m {
      SlotsApart(slots, interval, m, i - 1);
      assert (i - m) * interval == (i - 1 - m) * interval + interval;
    }
  }

  lemma WithinTime(k: int, interval: nat, time: int)
    requires interval > 0 && k >= 0 && k * interval <= time
    ensures k <= time / interval
  {
    DivAtLeast(time, k, interval);
  }

  /**
    No burst after idle time, in every interleaving: when no caller holds a reading at
    time T of the run, every slot reserved later is at least T plus its number of
    intervals, and by the time U at most (U - T) / interval + 1 of these callers returned.
   */
  lemma NoBurstAfterIdle(run: seq<Slots>, interval: nat, j: nat)
    requires IsRun(run, interval) && interval > 0 && j < |run| && NoReadings(run[j])
    ensures var s, T, m := run[|run| - 1], run[j].clock, |run[j].slots|;
            && T <= s.clock && m <= |s.slots|
            && (forall i :: m <= i < |s.slots| ==> s.slots[i] >= T + (i - m) * interval)
            && CountFrom(Indices(s.returned), m) <= (s.clock - T) / interval + 1
  {
    var s, T, m := run[|run| - 1], run[j].clock, |run[j].slots|;
    RunSince(run, interval, j);
    RunInv(run, interval);
    LaterSlots(s, T, m);
    forall index: nat
      ensures Times(Indices(s.returned), index) <= 1
    {
      EachSlotOnce(run, interval, index);
    }
    ReturnedByNow(s, T, m);
  }

  lemma LaterSlots(s: Slots, T: int, m: nat)
    requires SlotsInv(s) && Since(s, T, m)
    ensures forall i :: m <= i < |s.slots| ==> s.slots[i] >= T + (i - m) * s.interval
  {
    forall i: nat | m <= i < |s.slots|
      ensures s.slots[i] >= T + (i - m) * s.interval
    {
      SlotsApart(s.slots, s.interval, m, i);
    }
  }

  lemma ReturnedByNow(s: Slots, T: int, m: nat)
    requires NoneEarly(s) && s.interval > 0 && s.clock >= T
    requires forall i :: m <= i < |s.slots| ==> s.slots[i] >= T + (i - m) * s.interval
    requires forall index: nat :: Times(Indices(s.returned), index) <= 1
    ensures CountFrom(Indices(s.returned), m) <= (s.clock - T) / s.interval + 1
  {
    DivBounds(s.clock - T, s.interval);
    var n := m + (s.clock - T) / s.interval + 1;
    forall k: nat | k < |s.returned|
      ensures s.returned[k].index < n
    {
      var i := s.returned[k].index;
      if i >= m {
        WithinTime(i - m, s.interval, s.clock - T);
      }
    }
    DistinctInRange(Indices(s.returned), m, n);
  }
}
