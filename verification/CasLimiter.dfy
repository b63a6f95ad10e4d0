/**
  Callers of a compare-and-swap limiter, step by step: read the clock, load the
  cursor, attempt the swap. The clock never goes back.
 */
module CasLimiter {
  import opened Arithmetic
  import opened R = RateLimiter

  datatype Caller =
    | Idle
    | HasClock(now: int)
    | Loaded(now: int, next: int)
    | Sleeping(index: nat, until: int)  // of its reserved slot

  // ----- C#: swap only when the loaded time has come ------------------------------------

  datatype Shared = Shared(schedule: Schedule, clock: int, callers: seq<Caller>)

  predicate SharedInit(s: Shared) {
    && s.schedule.next == s.schedule.origin <= s.clock && s.schedule.grants == []
    && forall w :: 0 <= w < |s.callers| ==> s.callers[w] == Idle
  }

  predicate ReadOrLoad(clock: int, next: int, c: Caller, c': Caller) {
    || (c == Idle && c' == HasClock(clock))
    || (c.HasClock? && c' == Loaded(c.now, next))
  }

  /** The swap succeeds when the cursor still has the loaded value. */
  predicate Swap(s: Shared, s': Shared, w: nat)
    requires w < |s.callers|
  {
    var c := s.callers[w];
    && c.Loaded? && c.now >= c.next && s.schedule.next == c.next
    && s' == s.(callers := s.callers[w := Idle],
                schedule := s.schedule.(next := c.next + s.schedule.interval, grants := s.schedule.grants + [c.now]))
  }

  /** It fails when another caller moved the cursor; a caller that is early waits and retries. */
  predicate Retry(s: Shared, s': Shared, w: nat)
    requires w < |s.callers|
  {
    var c := s.callers[w];
    && c.Loaded? && (c.now < c.next || s.schedule.next != c.next)
    && s' == s.(callers := s.callers[w := Idle])
  }

  /** Or reads the clock, or loads the cursor. */
  predicate LookShared(s: Shared, s': Shared, w: nat)
    requires w < |s.callers|
  {
    && |s'.callers| == |s.callers|
    && ReadOrLoad(s.clock, s.schedule.next, s.callers[w], s'.callers[w])
    && s' == s.(callers := s.callers[w := s'.callers[w]])
  }

  predicate TickShared(s: Shared, s': Shared) {
    s'.clock >= s.clock && s' == s.(clock := s'.clock)
  }

  ghost predicate SharedStep(s: Shared, s': Shared) {
    || TickShared(s, s')
    || exists w: nat :: w < |s.callers| && (Swap(s, s', w) || Retry(s, s', w) || LookShared(s, s', w))
  }

  predicate SharedInv(s: Shared) {
    && OnSchedule(s.schedule)
    && (forall w :: 0 <= w < |s.callers| && (s.callers[w].HasClock? || s.callers[w].Loaded?) ==>
          s.callers[w].now <= s.clock)
    && (forall k :: 0 <= k < |s.schedule.grants| ==> s.schedule.grants[k] <= s.clock)
  }

  /** Every step leaves the schedule alone or is one locked attempt with a clock reading that is not in the future. */
  lemma CasRefinesLock(s: Shared, s': Shared)
    requires SharedInv(s) && SharedStep(s, s')
    ensures SharedInv(s')
    ensures s'.schedule == s.schedule ||
            exists now :: now <= s.clock && now >= s.schedule.next && s'.schedule == Attempt(s.schedule, now)
  {
    if !TickShared(s, s') {
      var w: nat :| w < |s.callers| && (Swap(s, s', w) || Retry(s, s', w) || LookShared(s, s', w));
      if Swap(s, s', w) {
        var now := s.callers[w].now;
        AttemptOnSchedule(s.schedule, now);
        assert s'.schedule == Attempt(s.schedule, now);
      }
    }
  }

  ghost predicate IsSharedRun(run: seq<Shared>) {
    && run != [] && SharedInit(run[0])
    && forall i :: 0 <= i < |run| - 1 ==> SharedStep(run[i], run[i + 1])
  }

  lemma {:induction false} SharedRunInv(run: seq<Shared>)
    requires IsSharedRun(run)
    ensures SharedInv(run[|run| - 1])
    ensures run[|run| - 1].schedule.origin == run[0].schedule.origin
    ensures run[|run| - 1].schedule.interval == run[0].schedule.interval
  {
    var n := |run| - 1;
    if n > 0 {
      assert IsSharedRun(run[..n]);
      SharedRunInv(run[..n]);
      assert SharedStep(run[n - 1], run[n - 1 + 1]);
      CasRefinesLock(run[n - 1], run[n]);
    }
  }

  /** In every interleaving the k-th acquire is no earlier than origin + k intervals, so their number is bounded. */
  lemma CasKeepsSchedule(run: seq<Shared>)
    requires IsSharedRun(run) && run[0].schedule.interval > 0
    ensures var s := run[|run| - 1];
            && (forall k :: 0 <= k < |s.schedule.grants| ==>
                  s.schedule.grants[k] >= run[0].schedule.origin + k * run[0].schedule.interval)
            && |s.schedule.grants| <= Allowed(run[0].schedule.origin, run[0].schedule.interval, s.clock)
  {
    SharedRunInv(run);
    GrantsByTime(run[|run| - 1].schedule, run[|run| - 1].clock);
  }

  /**
    A swap can fail only because another caller's swap succeeded since the load:
    step j of the run is that swap, and from there on the caller holds its load.
   */
  lemma {:induction false} SharedFailureHasWinner(run: seq<Shared>, w: nat) returns (j: nat, v: nat)
    requires IsSharedRun(run)
    requires var s := run[|run| - 1]; w < |s.callers| && s.callers[w].Loaded? && s.schedule.next != s.callers[w].next
    ensures j < |run| - 1 && v != w && v < |run[j].callers| && Swap(run[j], run[j + 1], v)
    ensures forall i :: j <= i < |run| ==> w < |run[i].callers| && run[i].callers[w] == run[|run| - 1].callers[w]
  {
    var n := |run| - 1;
    assert n > 0;
    var s, s' := run[n - 1], run[n];
    assert SharedStep(run[n - 1], run[n - 1 + 1]);
    if u: nat :| u < |s.callers| && u != w && Swap(s, s', u) {
      j, v := n - 1, u;
    } else {
      SharedLoadKept(s, s', w);
      assert IsSharedRun(run[..n]);
      j, v := SharedFailureHasWinner(run[..n], w);
      forall i | j <= i < |run|
        ensures w < |run[i].callers| && run[i].callers[w] == s'.callers[w]
      {
        assert i < n ==> run[..n][i] == run[i];
      }
    }
  }

  lemma SharedLoadKept(s: Shared, s': Shared, w: nat)
    requires SharedStep(s, s') && w < |s'.callers| && s'.callers[w].Loaded? && s'.schedule.next != s'.callers[w].next
    requires forall u: nat :: u < |s.callers| && u != w ==> !Swap(s, s', u)
    ensures |s.callers| == |s'.callers| && s.callers[w] == s'.callers[w] && s.schedule.next == s'.schedule.next
  {
    if !TickShared(s, s') {
      var u: nat :| u < |s.callers| && (Swap(s, s', u) || Retry(s, s', u) || LookShared(s, s', u));
    }
  }

  // ----- Rust: reserve a slot no earlier than now ----------------------------------------

  /** A caller's return: the index of its slot, and the time. */
  datatype Return = Return(index: nat, time: int)

  datatype Slots = Slots(
    interval: nat,
    next: int,
    clock: int,
    callers: seq<Caller>,
    slots: seq<int>,          // reserved, in order of reservation
    returned: seq<Return>)

  function Max(a: int, b: int): int {
    if a >= b then a else b
  }

  predicate SlotsInit(s: Slots) {
    && s.next == 0 && s.clock == 0 && s.slots == [] && s.returned == []
    && forall w :: 0 <= w < |s.callers| ==> s.callers[w] == Idle
  }

  predicate Tick(s: Slots, s': Slots) {
    s'.clock >= s.clock && s' == s.(clock := s'.clock)
  }

  predicate Look(s: Slots, s': Slots, w: nat)
    requires w < |s.callers|
  {
    && |s'.callers| == |s.callers|
    && ReadOrLoad(s.clock, s.next, s.callers[w], s'.callers[w])
    && s' == s.(callers := s.callers[w := s'.callers[w]])
  }

  /** Reserve max(next, now) and sleep for what is left of the wait computed from the reading. */
  predicate Reserve(s: Slots, s': Slots, w: nat)
    requires w < |s.callers|
  {
    var c := s.callers[w];
    && c.Loaded? && s.next == c.next
    && var slot := Max(c.next, c.now);
       s' == s.(next := slot + s.interval, slots := s.slots + [slot],
                callers := s.callers[w := Sleeping(|s.slots|, s.clock + (slot - c.now))])
  }

  predicate LostRace(s: Slots, s': Slots, w: nat)
    requires w < |s.callers|
  {
    s.callers[w].Loaded? && s.next != s.callers[w].next && s' == s.(callers := s.callers[w := Idle])
  }

  /** A sleep ends no earlier than it should. */
  predicate Wake(s: Slots, s': Slots, w: nat)
    requires w < |s.callers|
  {
    var c := s.callers[w];
    && c.Sleeping? && s.clock >= c.until
    && s' == s.(callers := s.callers[w := Idle], returned := s.returned + [Return(c.index, s.clock)])
  }

  predicate CallerStep(s: Slots, s': Slots, w: nat)
    requires w < |s.callers|
  {
    Look(s, s', w) || Reserve(s, s', w) || LostRace(s, s', w) || Wake(s, s', w)
  }

  ghost predicate SlotsStep(s: Slots, s': Slots) {
    Tick(s, s') || exists w: nat :: w < |s.callers| && CallerStep(s, s', w)
  }

  predicate Spaced(slots: seq<int>, interval: nat) {
    forall i :: 0 < i < |slots| ==> slots[i - 1] + interval <= slots[i]
  }

  predicate CallerOk(s: Slots, c: Caller) {
    match c
    case Idle => true
    case HasClock(now) => now <= s.clock
    case Loaded(now, next) => now <= s.clock
    case Sleeping(index, until) => index < |s.slots| && until >= s.slots[index]
  }

  predicate SlotsInv(s: Slots) {
    && Spaced(s.slots, s.interval)
    && (s.slots != [] ==> s.slots[|s.slots| - 1] + s.interval == s.next)
    && (forall w :: 0 <= w < |s.callers| ==> CallerOk(s, s.callers[w]))
    && NoneEarly(s)
  }

  /** No caller returned before its slot. */
  predicate NoneEarly(s: Slots) {
    forall k :: 0 <= k < |s.returned| ==>
      && s.returned[k].index < |s.slots|
      && s.slots[s.returned[k].index] <= s.returned[k].time <= s.clock
  }

  lemma LookInv(s: Slots, s': Slots, w: nat)
    requires SlotsInv(s) && w < |s.callers| && (Look(s, s', w) || LostRace(s, s', w) || Wake(s, s', w))
    ensures SlotsInv(s')
  {
    forall v | 0 <= v < |s'.callers|
      ensures CallerOk(s', s'.callers[v])
    {
      assert CallerOk(s, s.callers[v]);
    }
  }

  lemma ReserveInv(s: Slots, s': Slots, w: nat)
    requires SlotsInv(s) && w < |s.callers| && Reserve(s, s', w)
    ensures SlotsInv(s')
  {
    assert CallerOk(s, s.callers[w]);
    forall v | 0 <= v < |s'.callers|
      ensures CallerOk(s', s'.callers[v])
    {
      assert CallerOk(s, s.callers[v]);
    }
  }

  lemma SlotsStepInv(s: Slots, s': Slots)
    requires SlotsInv(s) && SlotsStep(s, s')
    ensures SlotsInv(s') && s'.interval == s.interval
  {
    if Tick(s, s') {
      forall v | 0 <= v < |s'.callers|
        ensures CallerOk(s', s'.callers[v])
      {
        assert CallerOk(s, s.callers[v]);
      }
    } else {
      var w: nat :| w < |s.callers| && CallerStep(s, s', w);
      if Reserve(s, s', w) {
        ReserveInv(s, s', w);
      } else {
        LookInv(s, s', w);
      }
    }
  }

  ghost predicate IsRun(run: seq<Slots>, interval: nat) {
    && run != [] && SlotsInit(run[0]) && run[0].interval == interval
    && forall i :: 0 <= i < |run| - 1 ==> SlotsStep(run[i], run[i + 1])
  }

  lemma {:induction false} RunInv(run: seq<Slots>, interval: nat)
    requires IsRun(run, interval)
    ensures SlotsInv(run[|run| - 1]) && run[|run| - 1].interval == interval
  {
    var n := |run| - 1;
    if n > 0 {
      assert IsRun(run[..n], interval);
      RunInv(run[..n], interval);
      assert SlotsStep(run[n - 1], run[n - 1 + 1]);
      SlotsStepInv(run[n - 1], run[n]);
    }
  }

  /** A reservation can fail only because another caller's succeeded since the load. */
  lemma {:induction false} LostRaceHasWinner(run: seq<Slots>, interval: nat, w: nat) returns (j: nat, v: nat)
    requires IsRun(run, interval)
    requires var s := run[|run| - 1]; w < |s.callers| && s.callers[w].Loaded? && s.next != s.callers[w].next
    ensures j < |run| - 1 && v != w && v < |run[j].callers| && Reserve(run[j], run[j + 1], v)
    ensures forall i :: j <= i < |run| ==> w < |run[i].callers| && run[i].callers[w] == run[|run| - 1].callers[w]
  {
    var n := |run| - 1;
    assert n > 0;
    var s, s' := run[n - 1], run[n];
    assert SlotsStep(run[n - 1], run[n - 1 + 1]);
    if u: nat :| u < |s.callers| && u != w && Reserve(s, s', u) {
      j, v := n - 1, u;
    } else {
      LoadKept(s, s', w);
      assert IsRun(run[..n], interval);
      j, v := LostRaceHasWinner(run[..n], interval, w);
      forall i | j <= i < |run|
        ensures w < |run[i].callers| && run[i].callers[w] == s'.callers[w]
      {
        assert i < n ==> run[..n][i] == run[i];
      }
    }
  }

  lemma LoadKept(s: Slots, s': Slots, w: nat)
    requires SlotsStep(s, s') && w < |s'.callers| && s'.callers[w].Loaded? && s'.next != s'.callers[w].next
    requires forall u: nat :: u < |s.callers| && u != w ==> !Reserve(s, s', u)
    ensures |s.callers| == |s'.callers| && s.callers[w] == s'.callers[w] && s.next == s'.next
  {
    if !Tick(s, s') {
      var u: nat :| u < |s.callers| && CallerStep(s, s', u);
    }
  }

  // ----- slots in a window ---------------------------------------------------------------

  /** How many slots lie in [lo, hi). */
  function CountIn(slots: seq<int>, lo: int, hi: int): nat {
    if slots == [] then 0
    else CountIn(slots[..|slots| - 1], lo, hi) + if lo <= slots[|slots| - 1] < hi then 1 else 0
  }

  lemma {:induction false} SpacedBelow(slots: seq<int>, interval: nat, i: nat)
    requires Spaced(slots, interval) && i < |slots|
    ensures slots[i] <= slots[|slots| - 1]
    ensures i < |slots| - 1 ==> slots[i] + interval <= slots[|slots| - 1]
  {
    if i < |slots| - 1 {
      var front := slots[..|slots| - 1];
      SpacedBelow(front, interval, i);
      assert slots[|slots| - 1 - 1] + interval <= slots[|slots| - 1];
    }
  }

  lemma {:induction false} CountNarrow(slots: seq<int>, lo: int, hi: int, top: int)
    requires top <= hi && forall i :: 0 <= i < |slots| ==> slots[i] < top
    ensures CountIn(slots, lo, hi) == CountIn(slots, lo, top)
    ensures top <= lo ==> CountIn(slots, lo, hi) == 0
  {
    if slots != [] {
      CountNarrow(slots[..|slots| - 1], lo, hi, top);
    }
  }

  /** A window of width hi - lo holds at most ceil((hi - lo) / interval) slots. */
  lemma {:induction false} WindowBound(slots: seq<int>, interval: nat, lo: int, hi: int)
    requires Spaced(slots, interval) && lo < hi
    ensures CountIn(slots, lo, hi) * interval < hi - lo + interval || interval == 0
    decreases |slots|
  {
    if slots != [] {
      var front, last := slots[..|slots| - 1], slots[|slots| - 1];
      if lo <= last < hi {
        var top := last - interval + 1;
        forall i | 0 <= i < |front|
          ensures front[i] < top
        {
          SpacedBelow(slots, interval, i);
        }
        if interval > 0 {
          CountNarrow(front, lo, hi, top);
          if top > lo {
            WindowBound(front, interval, lo, top);
          }
          OneMore(CountIn(front, lo, hi), interval);
        }
      } else {
        WindowBound(front, interval, lo, hi);
      }
    }
  }

  lemma OneMore(n: int, interval: int)
    ensures (n + 1) * interval == n * interval + interval
  {
  }

  /** In every run: slots are an interval apart, no caller returned before its slot, and windows are bounded. */
  lemma SlotsNeverBurst(run: seq<Slots>, interval: nat, lo: int, hi: int)
    requires IsRun(run, interval) && interval > 0 && lo < hi
    ensures var s := run[|run| - 1];
            && Spaced(s.slots, interval)
            && NoneEarly(s)
            && CountIn(s.slots, lo, hi) <= (hi - lo + interval - 1) / interval
  {
    RunInv(run, interval);
    var s := run[|run| - 1];
    WindowBound(s.slots, interval, lo, hi);
    var n := CountIn(s.slots, lo, hi);
    assert n * interval >= 0;
    DivMonotone(n * interval, hi - lo + interval - 1, interval);
    DivModUnique(n * interval, interval, n, 0);
  }

  // ----- the configured rate -------------------------------------------------------------

  /** How many of the slots a run reserves lie in the second that starts at lo. */
  function InSecond(run: seq<Slots>, lo: int): nat {
    if run == [] then 0 else CountIn(run[|run| - 1].slots, lo, lo + SECOND)
  }

  /** In every run, every window of one second holds at most rate slots. */
  ghost predicate RateKept(rate: nat)
    requires rate > 0
  {
    forall run: seq<Slots>, lo: int :: IsRun(run, Interval(rate)) ==> InSecond(run, lo) <= rate
  }

  lemma DivisorKeepsRate(rate: nat)
    requires rate > 0 && SECOND % rate == 0
    ensures RateKept(rate)
  {
    var q := Interval(rate);
    assert SECOND == rate * q && q > 0;
    forall run: seq<Slots>, lo: int | IsRun(run, Interval(rate))
      ensures InSecond(run, lo) <= rate
    {
      SlotsNeverBurst(run, q, lo, lo + SECOND);
      DivModUnique(SECOND + q - 1, q, rate, q - 1);
    }
  }

  /** One caller that acquires as fast as it may: after k acquires it has slots 0, q, 2q, ... */
  function Multiples(q: nat, k: nat): (slots: seq<int>)
    ensures |slots| == k
  {
    if k == 0 then [] else Multiples(q, k - 1) + [(k - 1) * q]
  }

  predicate Saturated(s: Slots, q: nat, k: nat) {
    s.interval == q && s.next == k * q && s.slots == Multiples(q, k) && s.clock <= k * q && s.callers == [Idle]
  }

  lemma Acquire(s: Slots, q: nat, k: nat) returns (a: Slots, b: Slots, c: Slots, d: Slots, e: Slots)
    requires Saturated(s, q, k)
    ensures SlotsStep(s, a) && SlotsStep(a, b) && SlotsStep(b, c) && SlotsStep(c, d) && SlotsStep(d, e)
    ensures Saturated(e, q, k + 1)
  {
    var t := k * q;
    assert (k + 1) * q == t + q;
    a := s.(clock := t);
    b := a.(callers := [HasClock(t)]);
    c := b.(callers := [Loaded(t, t)]);
    d := c.(next := t + q, slots := c.slots + [t], callers := [Sleeping(k, t)]);
    e := d.(callers := [Idle], returned := d.returned + [Return(k, t)]);
    assert Tick(s, a);
    assert b.callers == a.callers[0 := HasClock(t)] && CallerStep(a, b, 0);
    assert c.callers == b.callers[0 := Loaded(t, t)] && CallerStep(b, c, 0);
    assert d.callers == c.callers[0 := Sleeping(k, t)] && CallerStep(c, d, 0);
    assert e.callers == d.callers[0 := Idle] && CallerStep(d, e, 0);
  }

  lemma ExtendRun(run: seq<Slots>, q: nat, s: Slots)
    requires IsRun(run, q) && SlotsStep(run[|run| - 1], s)
    ensures IsRun(run + [s], q)
  {
    var r := run + [s];
    forall i | 0 <= i < |r| - 1
      ensures SlotsStep(r[i], r[i + 1])
    {
      if i < |run| - 1 {
        assert SlotsStep(run[i], run[i + 1]);
      }
    }
  }

  lemma {:induction false} SaturatedRun(q: nat, k: nat) returns (run: seq<Slots>)
    ensures IsRun(run, q) && Saturated(run[|run| - 1], q, k)
  {
    if k == 0 {
      run := [Slots(q, 0, 0, [Idle], [], [])];
    } else {
      var r := SaturatedRun(q, k - 1);
      var a, b, c, d, e := Acquire(r[|r| - 1], q, k - 1);
      run := r;
      ExtendRun(run, q, a);
      run := run + [a];
      ExtendRun(run, q, b);
      run := run + [b];
      ExtendRun(run, q, c);
      run := run + [c];
      ExtendRun(run, q, d);
      run := run + [d];
      ExtendRun(run, q, e);
      run := run + [e];
    }
  }

  lemma CountLast(slots: seq<int>, v: int, lo: int, hi: int)
    ensures CountIn(slots + [v], lo, hi) == CountIn(slots, lo, hi) + if lo <= v < hi then 1 else 0
  {
    assert (slots + [v])[..|slots|] == slots;
  }

  lemma MultipleBefore(q: nat, k: nat)
    requires k > 0
    ensures 0 <= (k - 1) * q && (k - 2) * q <= (k - 1) * q
  {
    assert (k - 1) * q == (k - 2) * q + q;
  }

  lemma {:induction false} CountMultiples(q: nat, k: nat, hi: int)
    requires k > 0 ==> (k - 1) * q < hi
    ensures CountIn(Multiples(q, k), 0, hi) == k
  {
    if k > 0 {
      MultipleBefore(q, k);
      CountMultiples(q, k - 1, hi);
      CountLast(Multiples(q, k - 1), (k - 1) * q, 0, hi);
    }
  }

  /** The interval is rounded down, so the rate per second is kept exactly when it divides a second. */
  lemma RateKeptIffDivisor(rate: nat)
    requires rate > 0
    ensures RateKept(rate) <==> SECOND % rate == 0
  {
    if SECOND % rate == 0 {
      DivisorKeepsRate(rate);
    } else {
      var q := Interval(rate);
      assert SECOND == rate * q + SECOND % rate;
      var run := SaturatedRun(q, rate + 1);
      CountMultiples(q, rate + 1, SECOND);
      assert InSecond(run, 0) == rate + 1;
    }
  }

  // ----- what can happen -----------------------------------------------------------------

  lemma CanStepShared(s: Shared, s': Shared, w: nat)
    requires w < |s.callers| && (Swap(s, s', w) || Retry(s, s', w) || LookShared(s, s', w))
    ensures SharedStep(s, s')
  {
  }

  /** An idle caller that reads the clock at or after the slot and is not overtaken acquires. */
  lemma SharedAcquires(s: Shared, w: nat, now: int) returns (a: Shared, b: Shared, c: Shared, d: Shared)
    requires w < |s.callers| && s.callers[w] == Idle && now >= s.clock && now >= s.schedule.next
    ensures SharedStep(s, a) && SharedStep(a, b) && SharedStep(b, c) && SharedStep(c, d)
    ensures d.callers == s.callers && d.schedule.next == s.schedule.next + s.schedule.interval
    ensures d.schedule.grants == s.schedule.grants + [now]
  {
    a := s.(clock := now);
    b := a.(callers := a.callers[w := HasClock(now)]);
    c := b.(callers := b.callers[w := Loaded(now, s.schedule.next)]);
    d := c.(callers := c.callers[w := Idle],
            schedule := c.schedule.(next := c.schedule.next + c.schedule.interval,
                                    grants := c.schedule.grants + [now]));
    assert TickShared(s, a);
    CanStepShared(a, b, w);
    CanStepShared(b, c, w);
    CanStepShared(c, d, w);
  }

  /** A caller that is early, or whose cursor has moved, starts over and changes nothing else. */
  lemma SharedRetries(s: Shared, w: nat) returns (s': Shared)
    requires w < |s.callers| && s.callers[w].Loaded?
    requires s.callers[w].now < s.callers[w].next || s.schedule.next != s.callers[w].next
    ensures SharedStep(s, s') && s' == s.(callers := s.callers[w := Idle])
  {
    s' := s.(callers := s.callers[w := Idle]);
    CanStepShared(s, s', w);
  }

  /** A caller whose cursor was moved between load and swap starts over without a slot. */
  lemma CanLose(s: Slots, w: nat) returns (s': Slots)
    requires w < |s.callers| && s.callers[w].Loaded? && s.next != s.callers[w].next
    ensures SlotsStep(s, s') && s' == s.(callers := s.callers[w := Idle])
  {
    s' := s.(callers := s.callers[w := Idle]);
    assert CallerStep(s, s', w);
  }

  /** An idle caller that is not overtaken reserves the later of the cursor and its reading, and returns then. */
  lemma CanReserve(s: Slots, w: nat) returns (run: seq<Slots>)
    requires w < |s.callers| && s.callers[w] == Idle
    ensures |run| == 6 && run[0] == s && forall i :: 0 <= i < 5 ==> SlotsStep(run[i], run[i + 1])
    ensures var slot := if s.next >= s.clock then s.next else s.clock;
            && run[5].slots == s.slots + [slot] && run[5].next == slot + s.interval && run[5].callers == s.callers
            && run[5].returned == s.returned + [Return(|s.slots|, slot)]
  {
    var now, slot := s.clock, Max(s.next, s.clock);
    var a := s.(callers := s.callers[w := HasClock(now)]);
    var b := a.(callers := a.callers[w := Loaded(now, s.next)]);
    var c := b.(next := slot + b.interval, slots := b.slots + [slot],
                callers := b.callers[w := Sleeping(|b.slots|, slot)]);
    var d := c.(clock := slot);
    var e := d.(callers := d.callers[w := Idle], returned := d.returned + [Return(|s.slots|, slot)]);
    assert CallerStep(s, a, w);
    assert CallerStep(a, b, w);
    assert CallerStep(b, c, w);
    assert Tick(c, d);
    assert CallerStep(d, e, w);
    run := [s, a, b, c, d, e];
  }

  lemma SomeRunsStart(origin: int, interval: nat, callers: nat) returns (shared: Shared, slots: Slots)
    ensures IsSharedRun([shared]) && shared.schedule == Schedule(origin, interval, origin, [])
    ensures IsRun([slots], interval) && slots.next == slots.clock == 0 && slots.slots == []
    ensures |shared.callers| == |slots.callers| == callers
  {
    shared := Shared(Created(origin, interval), origin, seq(callers, _ => Idle));
    slots := Slots(interval, 0, 0, seq(callers, _ => Idle), [], []);
  }
}
