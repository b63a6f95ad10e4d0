/** The rate of a phase run: its limiters bound the requests let through and the results recorded. */
module PhaseRate {
  import opened Sums
  import opened RateLimiter
  import opened Sharing
  import P = PhaseRun

  /** Requests past the limiter that are not settled. */
  function InHand(w: P.Worker): nat {
    if w.pc.Admitted? || w.pc.Issuing? then 1 else 0
  }

  predicate LimitersOnSchedule(c: P.Config, s: P.State) {
    && |s.limiters| == |c.intervals|
    && forall i :: 0 <= i < |s.limiters| ==>
         OnSchedule(s.limiters[i]) && AllUpTo(s.limiters[i].grants, s.clock) && s.limiters[i].interval == c.intervals[i]
  }

  predicate RateInv(c: P.Config, s: P.State) {
    && LimitersOnSchedule(c, s)
    && (c.intervals != [] ==> |s.passed| == AllGrants(s.limiters))
    && |s.log| + Sum(s.workers, InHand) <= |s.passed|
    && (c.intervals != [] && !c.sharedLimiter ==> OwnLimiters(s))
  }

  /** Each limiter let through the requests of its own connection. */
  predicate OwnLimiters(s: P.State) {
    forall i :: 0 <= i < |s.limiters| ==> Times(s.passed, i) == |s.limiters[i].grants|
  }

  predicate SameOrigins(s: P.State, s': P.State) {
    && |s'.limiters| == |s.limiters|
    && forall i :: 0 <= i < |s.limiters| ==> s'.limiters[i].origin == s.limiters[i].origin
  }

  lemma InitRate(c: P.Config, s: P.State)
    requires P.Init(c, s)
    ensures RateInv(c, s)
  {
    SumZero(s.workers, InHand);
    SumZero(s.limiters, GrantsOf);
  }

  /** Steps other than passing a limiter. */
  lemma OtherKeepsRate(c: P.Config, s: P.State, s': P.State, w: nat)
    requires RateInv(c, s) && P.OneMoved(s, s', w)
    requires s'.limiters == s.limiters && s'.clock == s.clock && s'.passed == s.passed
    requires |s'.log| + InHand(s'.workers[w]) <= |s.log| + InHand(s.workers[w])
    ensures RateInv(c, s')
  {
    SumUpdate(s.workers, w, s'.workers[w], InHand);
  }

  lemma PassKeepsLimiters(c: P.Config, s: P.State, s': P.State, w: nat)
    requires LimitersOnSchedule(c, s) && P.PassStep(c, s, s', w)
    ensures LimitersOnSchedule(c, s') && SameOrigins(s, s')
  {
    forall i: nat | i < |s.limiters|
      ensures var t := s'.limiters[i];
              && OnSchedule(t) && AllUpTo(t.grants, s'.clock)
              && t.interval == c.intervals[i] && t.origin == s.limiters[i].origin
    {
      AttemptOnSchedule(s.limiters[i], s'.clock);
    }
  }

  lemma PassKeepsRate(c: P.Config, s: P.State, s': P.State, w: nat)
    requires RateInv(c, s) && P.PassStep(c, s, s', w)
    ensures RateInv(c, s') && SameOrigins(s, s')
  {
    PassKeepsLimiters(c, s, s', w);
    SumUpdate(s.workers, w, s'.workers[w], InHand);
    if c.intervals != [] {
      var i := c.LimiterOf(s.workers[w].connection);
      SumUpdate(s.limiters, i, s'.limiters[i], GrantsOf);
      if !c.sharedLimiter {
        PassKeepsOwn(c, s, s', w);
      }
    }
  }

  lemma PassKeepsOwn(c: P.Config, s: P.State, s': P.State, w: nat)
    requires OwnLimiters(s) && P.PassStep(c, s, s', w) && c.intervals != [] && !c.sharedLimiter
    ensures OwnLimiters(s')
  {
    var conn := s.workers[w].connection;
    forall i | 0 <= i < |s'.limiters|
      ensures Times(s'.passed, i) == |s'.limiters[i].grants|
    {
      TimesAppend(s.passed, [conn], i);
      assert Times(s.passed, i) == |s.limiters[i].grants|;
    }
  }

  lemma TakeFrame(c: P.Config, s: P.State, s': P.State, w: nat)
    requires P.ControlStep(c, s, s', w) && !P.PassStep(c, s, s', w)
    ensures s'.limiters == s.limiters && s'.clock == s.clock && s'.passed == s.passed
  {
  }

  lemma WorkerKeepsRate(c: P.Config, s: P.State, s': P.State, w: nat)
    requires RateInv(c, s) && P.WorkerStep(c, s, s', w)
    ensures RateInv(c, s') && SameOrigins(s, s')
  {
    if P.PassStep(c, s, s', w) {
      PassKeepsRate(c, s, s', w);
    } else {
      if P.ControlStep(c, s, s', w) {
        P.ControlFrame(c, s, s', w);
        TakeFrame(c, s, s', w);
        NotPassed(c, s, s', w);
      } else if P.PanicStep(c, s, s', w) {
        P.PanicFrame(c, s, s', w);
      } else if r :| P.RecordStep(c, s, s', w, r) {
        assert P.OneMoved(s, s', w);
      } else {
        var start, stop :| P.MergeStep(c, s, s', w, start, stop);
        assert P.OneMoved(s, s', w);
      }
      OtherKeepsRate(c, s, s', w);
    }
  }

  lemma NotPassed(c: P.Config, s: P.State, s': P.State, w: nat)
    requires P.ControlStep(c, s, s', w) && !P.PassStep(c, s, s', w)
    ensures w < |s.workers| && w < |s'.workers| && InHand(s'.workers[w]) == InHand(s.workers[w])
  {
  }

  lemma {:induction false} RunKeepsRate(c: P.Config, run: seq<P.State>)
    requires c.Valid() && P.IsRun(c, run)
    ensures RateInv(c, run[|run| - 1]) && SameOrigins(run[0], run[|run| - 1])
  {
    var n := |run| - 1;
    if n == 0 {
      InitRate(c, run[0]);
    } else {
      P.Prefix(c, run);
      RunKeepsRate(c, run[..n]);
      var s, s' := run[n - 1], run[n];
      if !P.InterruptStep(c, s, s') {
        var w: nat :| w < |s.workers| && P.WorkerStep(c, s, s', w);
        WorkerKeepsRate(c, s, s', w);
      }
    }
  }

  lemma {:induction false} SameAllowed(a: seq<Schedule>, b: seq<Schedule>, time: int)
    requires |a| == |b|
    requires forall i :: 0 <= i < |a| ==> a[i].origin == b[i].origin && a[i].interval == b[i].interval > 0
    ensures AllAllowed(a, time) == AllAllowed(b, time)
  {
    if a != [] {
      SameAllowed(a[..|a| - 1], b[..|b| - 1], time);
    }
  }

  /**
    In every interleaving, the results recorded and the requests let through by a time
    are no more than what the schedules of the limiters, as created, allow together.
   */
  lemma RunWithinAllowed(c: P.Config, run: seq<P.State>)
    requires c.Valid() && P.IsRun(c, run)
    requires c.intervals != [] && forall i :: 0 <= i < |c.intervals| ==> c.intervals[i] > 0
    ensures forall i :: 0 <= i < |run[0].limiters| ==> run[0].limiters[i].interval > 0
    ensures var s := run[|run| - 1]; |s.log| <= |s.passed| <= AllAllowed(run[0].limiters, s.clock)
  {
    var s := run[|run| - 1];
    RunKeepsRate(c, run);
    InitRate(c, run[0]);
    TotalByTime(s.limiters, s.clock);
    SameAllowed(s.limiters, run[0].limiters, s.clock);
  }

  /** With a limiter for each connection, the requests of each keep to the schedule of its own. */
  lemma ConnectionWithinAllowed(c: P.Config, run: seq<P.State>, i: nat)
    requires c.Valid() && P.IsRun(c, run) && !c.sharedLimiter && i < |c.intervals| && c.intervals[i] > 0
    ensures i < |run[0].limiters|
    ensures var s := run[|run| - 1];
            Times(s.passed, i) <= Allowed(run[0].limiters[i].origin, c.intervals[i], s.clock)
  {
    var s := run[|run| - 1];
    RunKeepsRate(c, run);
    assert Times(s.passed, i) == |s.limiters[i].grants|;
    GrantsByTime(s.limiters[i], s.clock);
  }

  /**
    With one limiter at each connection's share, created at start or later, a run lets
    through and records at most limit a second and one more for each connection, while
    the rounding of the intervals is small.
   */
  lemma RunKeepsLimit(c: P.Config, run: seq<P.State>, limit: nat, start: int, seconds: nat)
    requires c.Valid() && P.IsRun(c, run) && c.connections <= limit && !c.sharedLimiter
    requires |c.intervals| == c.connections
    requires forall i: nat :: i < c.connections ==>
               && c.intervals[i] == Interval(SharesOf(limit, c.connections)[i])
               && RoundingIsSmall(SharesOf(limit, c.connections)[i], seconds)
               && i < |run[0].limiters| && run[0].limiters[i].origin >= start
    requires run[|run| - 1].clock <= start + seconds * SECOND
    ensures |run[|run| - 1].log| <= |run[|run| - 1].passed| <= limit * seconds + c.connections
  {
    var s, shares := run[|run| - 1], SharesOf(limit, c.connections);
    RunKeepsRate(c, run);
    SchedulesKept(s.limiters, shares, start, seconds);
    TotalRateIsSum(shares, limit, c.connections);
    SharesSumToTotal(limit, c.connections);
  }
}
