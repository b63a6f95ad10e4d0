/**
  Callers of the lock-based limiter: each enters the lock with the clock as it is
  then, and either takes the slot or sleeps at least until the slot it saw.
 */
module LockRuns {
  import opened RateLimiter

  datatype Caller = Ready | Sleeping(slot: int)

  datatype State = State(schedule: Schedule, clock: int, callers: seq<Caller>, acquired: nat)

  predicate Init(s: State) {
    && s.schedule == Created(s.schedule.origin, s.schedule.interval) && s.schedule.origin <= s.clock
    && s.acquired == 0
    && forall w :: 0 <= w < |s.callers| ==> s.callers[w] == Ready
  }

  predicate Tick(s: State, s': State) {
    s'.clock >= s.clock && s' == s.(clock := s'.clock)
  }

  /** A caller may enter the lock when it is not asleep: sleeps last at least the wait. */
  predicate Awake(s: State, w: nat)
    requires w < |s.callers|
  {
    s.callers[w].Ready? || s.clock >= s.callers[w].slot
  }

  predicate Take(s: State, s': State, w: nat)
    requires w < |s.callers|
  {
    && Awake(s, w) && s.clock >= s.schedule.next
    && s' == s.(schedule := Attempt(s.schedule, s.clock), callers := s.callers[w := Ready], acquired := s.acquired + 1)
  }

  predicate Wait(s: State, s': State, w: nat)
    requires w < |s.callers|
  {
    Awake(s, w) && s.clock < s.schedule.next && s' == s.(callers := s.callers[w := Sleeping(s.schedule.next)])
  }

  ghost predicate Step(s: State, s': State) {
    Tick(s, s') || exists w: nat :: w < |s.callers| && (Take(s, s', w) || Wait(s, s', w))
  }

  predicate Inv(s: State) {
    OnSchedule(s.schedule) && AllUpTo(s.schedule.grants, s.clock) && |s.schedule.grants| == s.acquired
  }

  lemma StepInv(s: State, s': State)
    requires Inv(s) && Step(s, s')
    ensures Inv(s') && s'.schedule.origin == s.schedule.origin && s'.schedule.interval == s.schedule.interval
  {
    AttemptOnSchedule(s.schedule, s.clock);
  }

  ghost predicate IsRun(run: seq<State>) {
    run != [] && Init(run[0]) && forall i :: 0 <= i < |run| - 1 ==> Step(run[i], run[i + 1])
  }

  lemma {:induction false} RunInv(run: seq<State>)
    requires IsRun(run)
    ensures var s := run[|run| - 1];
            Inv(s) && s.schedule.origin == run[0].schedule.origin && s.schedule.interval == run[0].schedule.interval
  {
    var n := |run| - 1;
    if n > 0 {
      assert IsRun(run[..n]);
      RunInv(run[..n]);
      assert Step(run[n - 1], run[n - 1 + 1]);
      StepInv(run[n - 1], run[n]);
    }
  }

  /** With any number of callers, acquires by now are no more than the schedule allows. */
  lemma LockKeepsSchedule(run: seq<State>)
    requires IsRun(run) && run[0].schedule.interval > 0
    ensures var s := run[|run| - 1];
            && |s.schedule.grants| == s.acquired
            && (forall k :: 0 <= k < s.acquired ==>
                  s.schedule.grants[k] >= run[0].schedule.origin + k * run[0].schedule.interval)
            && s.acquired <= Allowed(run[0].schedule.origin, run[0].schedule.interval, s.clock)
  {
    RunInv(run);
    GrantsByTime(run[|run| - 1].schedule, run[|run| - 1].clock);
  }

  /**
    A caller that wakes and has to wait again lost its slot to another caller: step j
    of the run is that caller's acquire, and from there on the first caller slept.
   */
  lemma {:induction false} LostSleepHasWinner(run: seq<State>, w: nat) returns (j: nat, v: nat)
    requires IsRun(run)
    requires var s := run[|run| - 1]; w < |s.callers| && s.callers[w].Sleeping? && s.schedule.next != s.callers[w].slot
    ensures j < |run| - 1 && v != w && v < |run[j].callers| && Take(run[j], run[j + 1], v)
    ensures forall i :: j <= i < |run| ==> w < |run[i].callers| && run[i].callers[w] == run[|run| - 1].callers[w]
  {
    var n := |run| - 1;
    assert n > 0;
    var s, s' := run[n - 1], run[n];
    assert Step(run[n - 1], run[n - 1 + 1]);
    if u: nat :| u < |s.callers| && u != w && Take(s, s', u) {
      j, v := n - 1, u;
    } else {
      SleepKept(s, s', w);
      assert IsRun(run[..n]);
      j, v := LostSleepHasWinner(run[..n], w);
      forall i | j <= i < |run|
        ensures w < |run[i].callers| && run[i].callers[w] == s'.callers[w]
      {
        assert i < n ==> run[..n][i] == run[i];
      }
    }
  }

  lemma SleepKept(s: State, s': State, w: nat)
    requires Step(s, s') && w < |s'.callers| && s'.callers[w].Sleeping? && s'.schedule.next != s'.callers[w].slot
    requires forall u: nat :: u < |s.callers| && u != w ==> !Take(s, s', u)
    ensures |s.callers| == |s'.callers| && s.callers[w] == s'.callers[w] && s.schedule.next == s'.schedule.next
  {
    if !Tick(s, s') {
      var u: nat :| u < |s.callers| && (Take(s, s', u) || Wait(s, s', u));
    }
  }

  /** A caller that went to sleep until a slot does nothing while the clock is before it. */
  lemma {:induction false} SleeperRests(run: seq<State>, j: nat, w: nat)
    requires IsRun(run) && j < |run| && w < |run[j].callers| && run[j].callers[w].Sleeping?
    requires run[|run| - 1].clock < run[j].callers[w].slot
    ensures var s := run[|run| - 1]; w < |s.callers| && s.callers[w] == run[j].callers[w]
  {
    var n := |run| - 1;
    if j < n {
      assert IsRun(run[..n]);
      assert Step(run[n - 1], run[n - 1 + 1]);
      assert run[n - 1].clock <= run[n].clock;
      SleeperRests(run[..n], j, w);
    }
  }

  // ----- what can happen -----------------------------------------------------------------

  /** Every caller acquires when the clock reaches its slot and no other caller comes first. */
  lemma CanAcquire(s: State, w: nat, now: int) returns (t: State, s': State)
    requires w < |s.callers| && now >= s.clock && now >= s.schedule.next
    requires s.callers[w].Sleeping? ==> now >= s.callers[w].slot
    ensures Step(s, t) && Step(t, s') && s'.acquired == s.acquired + 1 && s'.callers == s.callers[w := Ready]
    ensures s'.schedule.grants == s.schedule.grants + [now] && s'.schedule.next == s.schedule.next + s.schedule.interval
  {
    t := s.(clock := now);
    s' := t.(schedule := Attempt(t.schedule, now), callers := t.callers[w := Ready], acquired := t.acquired + 1);
    assert Tick(s, t);
    assert Take(t, s', w);
  }

  /** A caller that is awake before the slot goes to sleep until it, and changes nothing else. */
  lemma CanWait(s: State, w: nat) returns (s': State)
    requires w < |s.callers| && s.clock < s.schedule.next
    requires s.callers[w].Sleeping? ==> s.clock >= s.callers[w].slot
    ensures Step(s, s') && s' == s.(callers := s.callers[w := Sleeping(s.schedule.next)])
  {
    s' := s.(callers := s.callers[w := Sleeping(s.schedule.next)]);
    assert Wait(s, s', w);
  }

  lemma SomeRunStarts(origin: int, interval: nat, callers: nat) returns (s: State)
    ensures IsRun([s]) && s.schedule.origin == s.schedule.next == origin && |s.callers| == callers
  {
    s := State(Created(origin, interval), origin, seq(callers, _ => Ready), 0);
  }
}
