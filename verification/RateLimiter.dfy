/**
  Rate limiters. Lock-based (Go) and compare-and-swap (C#) limiters advance a
  schedule of fixed steps; the Rust limiter reserves slots no earlier than now.
 */
module RateLimiter {
  import opened Arithmetic
  import opened Sharing
  import opened Sums
  import opened Wrappers

  const SECOND := 1_000_000_000

  /** Nanoseconds between operations. */
  function Interval(rate: int): nat
    requires rate > 0
  {
    SECOND / rate
  }

  /** The longest whole number of nanoseconds of which rate fit into a second. */
  lemma IntervalIsLongest(rate: nat)
    requires rate > 0
    ensures rate * Interval(rate) <= 1_000_000_000 < rate * (Interval(rate) + 1)
  {
    assert SECOND == rate * Interval(rate) + SECOND % rate;
    assert rate * (Interval(rate) + 1) == rate * Interval(rate) + rate;
  }

  // ----- the fixed schedule ----------------------------------------------------------

  /** The cursor of a limiter created at origin, with the clock readings that were let through. */
  datatype Schedule = Schedule(origin: int, interval: nat, next: int, grants: seq<int>)

  /** One pass through the lock. */
  function Attempt(s: Schedule, now: int): Schedule {
    if now >= s.next then s.(next := s.next + s.interval, grants := s.grants + [now]) else s
  }

  predicate OnSchedule(s: Schedule) {
    && s.next == s.origin + |s.grants| * s.interval
    && forall k :: 0 <= k < |s.grants| ==> s.grants[k] >= s.origin + k * s.interval
  }

  /** The k-th operation, counting from 0, is never let through before origin + k intervals. */
  lemma AttemptOnSchedule(s: Schedule, now: int)
    requires OnSchedule(s)
    ensures OnSchedule(Attempt(s, now))
  {
    var s' := Attempt(s, now);
    if now >= s.next {
      assert (|s.grants| + 1) * s.interval == |s.grants| * s.interval + s.interval;
      forall k | 0 <= k < |s'.grants|
        ensures s'.grants[k] >= s.origin + k * s.interval
      {
      }
    }
  }

  /** How many operations the schedule allows by a time. */
  function Allowed(origin: int, interval: nat, time: int): int
    requires interval > 0
  {
    if time < origin then 0 else (time - origin) / interval + 1
  }

  lemma GrantsByTime(s: Schedule, time: int)
    requires OnSchedule(s) && s.interval > 0
    requires forall k :: 0 <= k < |s.grants| ==> s.grants[k] <= time
    ensures |s.grants| <= Allowed(s.origin, s.interval, time)
  {
    if s.grants != [] {
      var k := |s.grants| - 1;
      assert s.grants[k] >= s.origin + k * s.interval;
      assert k * s.interval >= 0;
      DivMonotone(k * s.interval, time - s.origin, s.interval);
      DivModUnique(k * s.interval, s.interval, k, 0);
    }
  }

  function AttemptTimes(s: Schedule, now: int, n: nat): Schedule {
    if n == 0 then s else Attempt(AttemptTimes(s, now, n - 1), now)
  }

  /** The operations a limiter lets through at one instant. */
  function Burst(s: Schedule, now: int): (b: int)
    requires s.interval > 0
    ensures b >= 0
  {
    if now < s.next then 0 else (now - s.next) / s.interval + 1
  }

  /** After an idle time the schedule catches up: n callers at one instant get min(n, Burst) operations. */
  lemma {:induction false} CatchUp(s: Schedule, now: int, n: nat)
    requires s.interval > 0
    ensures var granted := if n <= Burst(s, now) then n else Burst(s, now);
            && AttemptTimes(s, now, n).next == s.next + granted * s.interval
            && |AttemptTimes(s, now, n).grants| == |s.grants| + granted
            && AttemptTimes(s, now, n).interval == s.interval
  {
    if n > 0 {
      CatchUp(s, now, n - 1);
      var b := Burst(s, now);
      var g := if n - 1 <= b then n - 1 else b;
      NextGrant(s, now, g);
      CatchUpStep(AttemptTimes(s, now, n - 1), s, now, n, b, g);
    }
  }

  lemma CatchUpStep(t: Schedule, s: Schedule, now: int, n: nat, b: int, g: nat)
    requires n > 0 && b >= 0 && g == if n - 1 <= b then n - 1 else b
    requires t.next == s.next + g * s.interval && |t.grants| == |s.grants| + g && t.interval == s.interval
    requires now >= s.next + g * s.interval <==> g < b
    requires (g + 1) * s.interval == g * s.interval + s.interval
    ensures var granted := if n <= b then n else b;
            && Attempt(t, now).next == s.next + granted * s.interval
            && |Attempt(t, now).grants| == |s.grants| + granted
            && Attempt(t, now).interval == s.interval
  {
    assert (if n <= b then n else b) == if g < b then g + 1 else g;
  }

  lemma NextGrant(s: Schedule, now: int, g: nat)
    requires s.interval > 0
    ensures now >= s.next + g * s.interval <==> g < Burst(s, now)
    ensures (g + 1) * s.interval == g * s.interval + s.interval
  {
    assert g * s.interval >= 0;
    if now >= s.next + g * s.interval {
      DivMonotone(g * s.interval, now - s.next, s.interval);
      DivModUnique(g * s.interval, s.interval, g, 0);
    } else if now >= s.next {
      assert now - s.next == s.interval * ((now - s.next) / s.interval) + (now - s.next) % s.interval;
      if g < (now - s.next) / s.interval + 1 && g < (now - s.next) / s.interval {
        MulLess(g, (now - s.next) / s.interval, s.interval);
      }
    }
  }

  /** "No burst" holds of a limiter exactly while it is less than one interval behind the clock. */
  lemma NoBurstIffNotBehind(s: Schedule, now: int)
    requires s.interval > 0
    ensures (forall n: nat :: |AttemptTimes(s, now, n).grants| <= |s.grants| + 1) <==> now < s.next + s.interval
  {
    NextGrant(s, now, 1);
    if now < s.next + s.interval {
      forall n: nat
        ensures |AttemptTimes(s, now, n).grants| <= |s.grants| + 1
      {
        CatchUp(s, now, n);
      }
    } else {
      CatchUp(s, now, 2);
    }
  }

  /** Go: the limiter object. */
  class LockLimiter {
    const intervalNanos: nat
    var nextAllowed: int
    ghost var schedule: Schedule

    ghost predicate Valid()
      reads this
    {
      OnSchedule(schedule) && schedule.interval == intervalNanos && schedule.next == nextAllowed
    }

    constructor (ratePerSecond: int, now: int)
      requires ratePerSecond > 0
      ensures Valid() && schedule == Schedule(now, Interval(ratePerSecond), now, [])
    {
      intervalNanos := SECOND / ratePerSecond;
      nextAllowed := now;
      schedule := Schedule(now, SECOND / ratePerSecond, now, []);
    }

    /** Under the lock: take the slot, or learn how long to sleep. */
    method TryLocked(now: int) returns (wait: Option<int>)
      requires Valid()
      modifies this
      ensures Valid() && schedule == Attempt(old(schedule), now)
      ensures wait == if now >= old(nextAllowed) then None else Some(old(nextAllowed) - now)
    {
      AttemptOnSchedule(schedule, now);
      schedule := Attempt(schedule, now);
      if now >= nextAllowed {
        nextAllowed := nextAllowed + intervalNanos;
        return None;
      }
      return Some(nextAllowed - now);
    }

    /** Loop until let through; each sleep lasts at least the wait. */
    method Acquire(now0: int, oversleep: nat) returns (now: int)
      requires Valid()
      modifies this
      ensures Valid() && now >= now0
      ensures now == if now0 >= old(nextAllowed) then now0 else old(nextAllowed) + oversleep
      ensures schedule == Attempt(old(schedule), now) && |schedule.grants| == old(|schedule.grants|) + 1
    {
      now := now0;
      while true
        invariant Valid() && schedule == old(schedule)
        invariant now == now0 || (now0 < old(nextAllowed) && now == old(nextAllowed) + oversleep)
        decreases nextAllowed - now
      {
        var wait := TryLocked(now);
        if wait.None? {
          return;
        }
        now := now + wait.value + oversleep;
      }
    }
  }

  method NewRateLimiter(ratePerSecond: int, now: int) returns (r: LockLimiter?)
    ensures r == null <==> ratePerSecond <= 0
    ensures r != null ==> fresh(r) && r.Valid() && r.schedule == Schedule(now, Interval(ratePerSecond), now, [])
  {
    if ratePerSecond <= 0 {
      return null;
    }
    r := new LockLimiter(ratePerSecond, now);
  }

  // ----- runs of one limiter ---------------------------------------------------------------

  /** A limiter as created, before any caller. */
  function Created(origin: int, interval: nat): Schedule {
    Schedule(origin, interval, origin, [])
  }

  /** The limiter after callers read these times under the lock. */
  function AfterReadings(s: Schedule, readings: seq<int>): Schedule {
    if readings == [] then s else Attempt(AfterReadings(s, readings[..|readings| - 1]), readings[|readings| - 1])
  }

  predicate AllUpTo(times: seq<int>, time: int) {
    forall k :: 0 <= k < |times| ==> times[k] <= time
  }

  lemma {:induction false} ReadingsKeepSchedule(s: Schedule, readings: seq<int>, time: int)
    requires OnSchedule(s) && AllUpTo(s.grants, time) && AllUpTo(readings, time)
    ensures var t := AfterReadings(s, readings);
            OnSchedule(t) && AllUpTo(t.grants, time) && t.origin == s.origin && t.interval == s.interval
  {
    if readings != [] {
      var front := readings[..|readings| - 1];
      ReadingsKeepSchedule(s, front, time);
      AttemptOnSchedule(AfterReadings(s, front), readings[|readings| - 1]);
    }
  }

  /** Readings exactly on schedule: origin, origin + interval, ... */
  function OnTime(origin: int, interval: nat, n: nat): (readings: seq<int>)
    ensures |readings| == n
    ensures forall k :: 0 <= k < n ==> readings[k] <= origin + (n - 1) * interval
  {
    if n == 0 then []
    else
      Step(n, interval);
      OnTime(origin, interval, n - 1) + [origin + (n - 1) * interval]
  }

  lemma Step(n: int, interval: nat)
    ensures (n - 1) * interval == (n - 2) * interval + interval
  {
  }

  /** Callers exactly on schedule are all let through. */
  lemma {:induction false} OnTimeIsGranted(origin: int, interval: nat, n: nat)
    ensures var t := AfterReadings(Created(origin, interval), OnTime(origin, interval, n));
            |t.grants| == n && t.next == origin + n * interval && t.interval == interval
  {
    if n > 0 {
      OnTimeIsGranted(origin, interval, n - 1);
      Step(n + 1, interval);
      assert OnTime(origin, interval, n)[..n - 1] == OnTime(origin, interval, n - 1);
    }
  }

  /** The bound by a time is reached: callers exactly on schedule get as many operations as the schedule allows. */
  lemma AllowedIsReached(origin: int, interval: nat, time: int)
    requires interval > 0 && time >= origin
    ensures var n := Allowed(origin, interval, time);
            && n > 0 && AllUpTo(OnTime(origin, interval, n), time)
            && |AfterReadings(Created(origin, interval), OnTime(origin, interval, n)).grants| == n
  {
    var n := Allowed(origin, interval, time);
    DivBounds(time - origin, interval);
    OnTimeIsGranted(origin, interval, n);
  }

  // ----- total over connections --------------------------------------------------------

  function GrantsOf(s: Schedule): nat {
    |s.grants|
  }

  function AllGrants(limiters: seq<Schedule>): nat {
    Sum(limiters, GrantsOf)
  }

  function AllAllowed(limiters: seq<Schedule>, time: int): int
    requires forall i :: 0 <= i < |limiters| ==> limiters[i].interval > 0
  {
    if limiters == [] then 0
    else
      var last := limiters[|limiters| - 1];
      AllAllowed(limiters[..|limiters| - 1], time) + Allowed(last.origin, last.interval, time)
  }

  /** By any time, limiters of any origins and rates let through no more than their schedules allow together. */
  lemma {:induction false} TotalByTime(limiters: seq<Schedule>, time: int)
    requires forall i :: 0 <= i < |limiters| ==>
               OnSchedule(limiters[i]) && limiters[i].interval > 0 && AllUpTo(limiters[i].grants, time)
    ensures AllGrants(limiters) <= AllAllowed(limiters, time)
  {
    if limiters != [] {
      TotalByTime(limiters[..|limiters| - 1], time);
      GrantsByTime(limiters[|limiters| - 1], time);
    }
  }

  // ----- the configured rate over a phase ------------------------------------------------

  /** One connection of a phase: when its limiter was created, and what its callers read under the lock. */
  datatype Connection = Connection(origin: int, readings: seq<int>)

  function Granted(c: Connection, share: nat): nat
    requires share > 0
  {
    |AfterReadings(Created(c.origin, Interval(share)), c.readings).grants|
  }

  function SharesOf(limit: nat, active: nat): (shares: seq<nat>)
    requires 0 < active <= limit
    ensures |shares| == active
    ensures forall i :: 0 <= i < active ==> shares[i] == SplitShare(limit, active, i) > 0
  {
    seq(active, i requires 0 <= i < active => SharePositive(limit, active, i); SplitShare(limit, active, i))
  }

  function TotalGranted(connections: seq<Connection>, shares: seq<nat>): nat
    requires |connections| == |shares| && forall i :: 0 <= i < |shares| ==> shares[i] > 0
  {
    if connections == [] then 0
    else
      var n := |connections| - 1;
      TotalGranted(connections[..n], shares[..n]) + Granted(connections[n], shares[n])
  }

  function TotalRate(shares: seq<nat>): nat {
    if shares == [] then 0 else TotalRate(shares[..|shares| - 1]) + shares[|shares| - 1]
  }

  lemma SharePositive(limit: nat, active: nat, i: nat)
    requires 0 < active <= limit
    ensures SplitShare(limit, active, i) > 0
  {
    DivMonotone(active, limit, active);
    DivModUnique(active, active, 1, 0);
  }

  /** Connections created at start or later, with no caller after the given number of seconds. */
  predicate Within(connections: seq<Connection>, start: int, seconds: nat) {
    forall i :: 0 <= i < |connections| ==>
      connections[i].origin >= start && AllUpTo(connections[i].readings, start + seconds * SECOND)
  }

  /** The rounding of the interval costs less than one interval over the whole time. */
  predicate RoundingIsSmall(share: nat, seconds: nat)
    requires share > 0
  {
    seconds * (SECOND % share) < SECOND / share
  }

  /** The time of the operation after share * seconds + 1 others. */
  lemma ExtraOperation(share: nat, seconds: nat)
    requires share > 0
    ensures var q := Interval(share);
            && (share * seconds) * q <= seconds * SECOND
            && ((share * seconds + 1) * q <= seconds * SECOND <==> !RoundingIsSmall(share, seconds))
  {
    var q, r := SECOND / share, SECOND % share;
    assert SECOND == share * q + r;
    assert seconds * (share * q + r) == (share * seconds) * q + seconds * r;
    assert (share * seconds + 1) * q == (share * seconds) * q + q;
    assert seconds * r >= 0;
  }

  lemma GrantAt(s: Schedule, k: nat, time: int)
    requires OnSchedule(s) && AllUpTo(s.grants, time) && k < |s.grants|
    ensures s.origin + k * s.interval <= time
  {
    assert s.grants[k] >= s.origin + k * s.interval;
  }

  /** Created at start or later, a limiter at a share lets through at most share a second and one more. */
  lemma ScheduleKept(s: Schedule, share: nat, start: int, seconds: nat)
    requires share > 0 && RoundingIsSmall(share, seconds) && s.interval == Interval(share) && s.origin >= start
    requires OnSchedule(s) && AllUpTo(s.grants, start + seconds * SECOND)
    ensures |s.grants| <= share * seconds + 1
  {
    ExtraOperation(share, seconds);
    var k := share * seconds + 1;
    if |s.grants| > k {
      GrantAt(s, k, start + seconds * SECOND);
      assert false;
    }
  }

  lemma ShareKept(c: Connection, share: nat, start: int, seconds: nat)
    requires share > 0 && RoundingIsSmall(share, seconds)
    requires c.origin >= start && AllUpTo(c.readings, start + seconds * SECOND)
    ensures Granted(c, share) <= share * seconds + 1
  {
    var q := Interval(share);
    var s := AfterReadings(Created(c.origin, q), c.readings);
    ReadingsKeepSchedule(Created(c.origin, q), c.readings, start + seconds * SECOND);
    ScheduleKept(s, share, start, seconds);
  }

  /** A connection whose callers come exactly on schedule. */
  function Busy(share: nat, start: int, seconds: nat, more: nat): Connection
    requires share > 0
  {
    Connection(start, OnTime(start, Interval(share), share * seconds + 1 + more))
  }

  lemma BusyIsGranted(share: nat, start: int, seconds: nat, more: nat)
    requires share > 0 && (more == 0 || (more == 1 && !RoundingIsSmall(share, seconds)))
    ensures Granted(Busy(share, start, seconds, more), share) == share * seconds + 1 + more
    ensures AllUpTo(Busy(share, start, seconds, more).readings, start + seconds * SECOND)
  {
    OnTimeIsGranted(start, Interval(share), share * seconds + 1 + more);
    ExtraOperation(share, seconds);
  }

  /** Connections that run exactly on schedule, connection extra for one operation more. */
  function Busiest(shares: seq<nat>, start: int, seconds: nat, extra: int): (connections: seq<Connection>)
    requires forall i :: 0 <= i < |shares| ==> shares[i] > 0
    ensures |connections| == |shares|
  {
    if shares == [] then []
    else
      var n := |shares| - 1;
      Busiest(shares[..n], start, seconds, extra) + [Busy(shares[n], start, seconds, if n == extra then 1 else 0)]
  }

  function Bound(shares: seq<nat>, seconds: nat): nat {
    TotalRate(shares) * seconds + |shares|
  }

  lemma BoundLast(shares: seq<nat>, seconds: nat)
    requires shares != []
    ensures var n := |shares| - 1; Bound(shares, seconds) == Bound(shares[..n], seconds) + shares[n] * seconds + 1
  {
    Distribute(TotalRate(shares[..|shares| - 1]), shares[|shares| - 1], seconds);
  }

  function One(extra: int, n: nat): nat {
    if 0 <= extra < n then 1 else 0
  }

  lemma {:induction false} BusiestWithin(shares: seq<nat>, start: int, seconds: nat, extra: int)
    requires forall i :: 0 <= i < |shares| ==> shares[i] > 0
    requires 0 <= extra < |shares| ==> !RoundingIsSmall(shares[extra], seconds)
    ensures Within(Busiest(shares, start, seconds, extra), start, seconds)
  {
    if shares != [] {
      var n := |shares| - 1;
      BusiestWithin(shares[..n], start, seconds, extra);
      BusyIsGranted(shares[n], start, seconds, if n == extra then 1 else 0);
    }
  }

  lemma {:induction false} BusiestTotal(shares: seq<nat>, start: int, seconds: nat, extra: int)
    requires forall i :: 0 <= i < |shares| ==> shares[i] > 0
    requires 0 <= extra < |shares| ==> !RoundingIsSmall(shares[extra], seconds)
    ensures TotalGranted(Busiest(shares, start, seconds, extra), shares) ==
            Bound(shares, seconds) + One(extra, |shares|)
  {
    if shares != [] {
      var n := |shares| - 1;
      var front, last := Busiest(shares[..n], start, seconds, extra),
                         Busy(shares[n], start, seconds, if n == extra then 1 else 0);
      BusiestTotal(shares[..n], start, seconds, extra);
      BusyIsGranted(shares[n], start, seconds, if n == extra then 1 else 0);
      BoundLast(shares, seconds);
      assert Busiest(shares, start, seconds, extra) == front + [last];
      OneMoreConnection(front, last, shares);
    }
  }

  lemma OneMoreConnection(front: seq<Connection>, last: Connection, shares: seq<nat>)
    requires |shares| == |front| + 1 && forall i :: 0 <= i < |shares| ==> shares[i] > 0
    ensures TotalGranted(front + [last], shares) ==
            TotalGranted(front, shares[..|front|]) + Granted(last, shares[|front|])
  {
    assert (front + [last])[..|front|] == front;
  }

  lemma Distribute(a: int, b: int, c: int)
    ensures (a + b) * c == a * c + b * c
  {
  }

  lemma {:induction false} SharesKept(connections: seq<Connection>, shares: seq<nat>, start: int, seconds: nat)
    requires |connections| == |shares| && Within(connections, start, seconds)
    requires forall i :: 0 <= i < |shares| ==> shares[i] > 0 && RoundingIsSmall(shares[i], seconds)
    ensures TotalGranted(connections, shares) <= Bound(shares, seconds)
  {
    if shares != [] {
      var n := |shares| - 1;
      SharesKept(connections[..n], shares[..n], start, seconds);
      ShareKept(connections[n], shares[n], start, seconds);
      BoundLast(shares, seconds);
    }
  }

  lemma {:induction false} SchedulesKept(limiters: seq<Schedule>, shares: seq<nat>, start: int, seconds: nat)
    requires |limiters| == |shares|
    requires forall i :: 0 <= i < |shares| ==>
               && shares[i] > 0 && RoundingIsSmall(shares[i], seconds)
               && limiters[i].interval == Interval(shares[i]) && limiters[i].origin >= start
               && OnSchedule(limiters[i]) && AllUpTo(limiters[i].grants, start + seconds * SECOND)
    ensures AllGrants(limiters) <= Bound(shares, seconds)
  {
    if shares != [] {
      var n := |shares| - 1;
      SchedulesKept(limiters[..n], shares[..n], start, seconds);
      ScheduleKept(limiters[n], shares[n], start, seconds);
      BoundLast(shares, seconds);
    }
  }

  lemma {:induction false} TotalRateIsSum(shares: seq<nat>, limit: nat, active: nat)
    requires |shares| <= active && forall i :: 0 <= i < |shares| ==> shares[i] == SplitShare(limit, active, i)
    ensures TotalRate(shares) == SumShares(limit, active, |shares|)
  {
    if shares != [] {
      TotalRateIsSum(shares[..|shares| - 1], limit, active);
    }
  }

  /** Whatever the callers do, a phase lets through at most limit a second and one more for each connection. */
  ghost predicate PhaseKeepsRate(limit: nat, active: nat, seconds: nat)
    requires 0 < active <= limit
  {
    forall connections: seq<Connection>, start: int ::
      |connections| == active && Within(connections, start, seconds) ==>
        TotalGranted(connections, SharesOf(limit, active)) <= limit * seconds + active
  }

  /** It does exactly when the rounding is small for every connection's share. */
  lemma PhaseKeepsRateIff(limit: nat, active: nat, seconds: nat)
    requires 0 < active <= limit
    ensures PhaseKeepsRate(limit, active, seconds) <==>
            forall i: nat :: i < active ==> RoundingIsSmall(SharesOf(limit, active)[i], seconds)
  {
    var shares := SharesOf(limit, active);
    TotalRateIsSum(shares, limit, active);
    SharesSumToTotal(limit, active);
    if i: nat :| i < active && !RoundingIsSmall(shares[i], seconds) {
      var connections := Busiest(shares, 0, seconds, i);
      BusiestWithin(shares, 0, seconds, i);
      BusiestTotal(shares, 0, seconds, i);
      assert TotalGranted(connections, shares) > limit * seconds + active;
    } else {
      forall connections: seq<Connection>, start: int | |connections| == active && Within(connections, start, seconds)
        ensures TotalGranted(connections, shares) <= limit * seconds + active
      {
        SharesKept(connections, shares, start, seconds);
      }
    }
  }
}
