/**
  A phase as an interleaved run: connections x depth workers claim tickets from one
  budget, draw keys, execute commands, record into their own collectors and merge
  them when they stop. One step of one worker at a time, in any order.
 */
module PhaseRun {
  import opened Arithmetic
  import opened FixedWidth
  import opened Lcg
  import opened HdrLayout
  import opened Sharing
  import opened Sums
  import opened Wrappers
  import R = RateLimiter
  import B = Budget
  import M = Metrics
  import E = EndToEnd
  import Ports = JavaRandomPorts
  import StridedKeys
  import opened HdrCounts
  import opened HdrHistogram

  datatype Config = Config(
    connections: nat,
    depth: nat,
    target: nat,          // requests; not used by duration-based phases
    durationBased: bool,
    sequential: bool,     // sequential_int, otherwise uniform_rand
    keysCount: int,
    seedBase: int,
    intervals: seq<nat>,  // of the rate limiters; none when the rate is unlimited
    sharedLimiter: bool,  // one limiter for all connections, otherwise one for each
    keepsOnPanic: bool)   // Go merges a panicked worker's collector, Rust drops it
  {
    function WorkerCount(): int {
      connections * depth
    }

    /** A key space without a positive size has one key. */
    function KeyCount(): (n: nat)
      ensures n > 0
    {
      if keysCount <= 0 then 1 else keysCount
    }

    /** What the random generators are asked for. */
    function KeyBound(): Bound {
      if KeyCount() < TWO31 then KeyCount() else 1
    }

    /** Random key spaces are smaller than 2^31, which is what the generators accept. */
    predicate Valid() {
      && connections > 0 && depth > 0 && (!sequential ==> keysCount < TWO31)
      && (intervals != [] ==> |intervals| == if sharedLimiter then 1 else connections)
    }

    function LimiterOf(connection: nat): nat {
      if sharedLimiter then 0 else connection
    }

    /** The generator of a connection is seeded base + index. */
    function InitialRng(connection: nat): State48 {
      Scramble(seedBase + connection)
    }
  }

  datatype Pc =
    | Ready      // at the top of the loop
    | Claimed    // holds a ticket
    | Admitted   // let through by the limiter
    | Issuing    // has its key, command in flight
    | Exited     // left the loop, collector not merged yet
    | Merged
    | Dead       // panicked and dropped

  /** The ticket is that of the request in hand, while there is one. */
  datatype Worker = Worker(connection: nat, pc: Pc, ticket: nat, results: seq<M.CommandResult>)

  /** A request that settled: its ticket and its result. */
  datatype Recorded = Recorded(ticket: nat, result: M.CommandResult)

  datatype State = State(
    budget: B.Budget,
    issued: nat,                // tickets handed out
    clock: int,                 // the latest time at which a limiter let a request through
    limiters: seq<R.Schedule>,
    passed: seq<int>,           // the connections of the requests let through, in order
    nextKey: nat,               // the shared sequential counter
    drawn: seq<int>,            // sequential keys, in the order drawn
    rngs: seq<State48>,         // one generator per connection
    keysOf: seq<seq<int>>,      // random keys, by connection
    workers: seq<Worker>,
    merged: seq<M.Worker>,      // collectors merged so far
    log: seq<Recorded>,         // all that was recorded, in order
    lostTickets: seq<nat>,      // requests in flight that a panic lost
    dropped: seq<M.CommandResult>, // recorded results that a panic dropped with their collector
    lost: nat,                  // tickets whose results a panic lost, in flight or recorded
    interrupted: bool)

  // ----- steps -------------------------------------------------------------------

  function SetPc(s: State, w: nat, pc: Pc): State
    requires w < |s.workers|
  {
    s.(workers := s.workers[w := s.workers[w].(pc := pc)])
  }

  /** The next ticket goes to worker w. */
  function Ticket(s: State, w: nat): State
    requires w < |s.workers|
  {
    s.(workers := s.workers[w := s.workers[w].(pc := Claimed, ticket := s.issued)], issued := s.issued + 1)
  }

  predicate At(s: State, w: nat, pc: Pc) {
    w < |s.workers| && s.workers[w].pc == pc
  }

  predicate Init(c: Config, s: State) {
    && B.IsFresh(c.target, s.budget) && s.issued == 0
    && s.passed == [] && |s.limiters| == |c.intervals|
    && (forall i :: 0 <= i < |s.limiters| ==> s.limiters[i] == R.Created(s.limiters[i].origin, c.intervals[i]))
    && s.nextKey == 0 && s.drawn == []
    && s.rngs == seq(c.connections, i requires 0 <= i < c.connections => c.InitialRng(i))
    && s.keysOf == seq(c.connections, _ => [])
    && |s.workers| == c.WorkerCount()
    && (forall w :: 0 <= w < |s.workers| ==>
          s.workers[w].connection < c.connections && s.workers[w].pc == Ready && s.workers[w].results == [])
    && s.merged == [] && s.log == [] && s.lostTickets == [] && s.dropped == [] && s.lost == 0 && !s.interrupted
  }

  /** A worker that sees the interrupt flag leaves the loop. */
  predicate SeeInterrupt(c: Config, s: State, s': State, w: nat) {
    At(s, w, Ready) && s.interrupted && s' == SetPc(s, w, Exited)
  }

  /** A claim on the shared budget: proceed with a ticket, or leave the loop. */
  predicate ClaimStep(c: Config, s: State, s': State, w: nat) {
    && At(s, w, Ready) && !c.durationBased
    && var claim := B.ClaimTicket(c.target, s.budget);
       s' == (if claim.ok then Ticket(s, w) else SetPc(s, w, Exited)).(budget := claim.budget)
  }

  /** In a duration-based phase the clock decides. */
  predicate ClockStep(c: Config, s: State, s': State, w: nat) {
    && At(s, w, Ready) && c.durationBased
    && (s' == SetPc(s, w, Exited) || s' == Ticket(s, w))
  }

  /** The limiter of the worker's connection lets it through when its slot has come, at the time s'.clock. */
  predicate PassStep(c: Config, s: State, s': State, w: nat) {
    && At(s, w, Claimed) && s'.clock >= s.clock
    && if c.intervals == [] then
         s' == SetPc(s, w, Admitted).(clock := s'.clock, passed := s.passed + [s.workers[w].connection])
       else
         var i := c.LimiterOf(s.workers[w].connection);
         && i < |s.limiters| && s'.clock >= s.limiters[i].next
         && s' == SetPc(s, w, Admitted).(clock := s'.clock, passed := s.passed + [s.workers[w].connection],
                                         limiters := s.limiters[i := R.Attempt(s.limiters[i], s'.clock)])
  }

  /** Then the worker selects a command that uses no key. */
  predicate SelectKeyless(c: Config, s: State, s': State, w: nat) {
    At(s, w, Admitted) && s' == SetPc(s, w, Issuing)
  }

  /** Or one that draws a key: fetch-and-increment, or the connection's generator under its lock. */
  predicate DrawKey(c: Config, s: State, s': State, w: nat) {
    && At(s, w, Admitted)
    && if c.sequential then
         s' == SetPc(s, w, Issuing).(nextKey := s.nextKey + 1, drawn := s.drawn + [s.nextKey % c.KeyCount()])
       else
         var conn := s.workers[w].connection;
         && conn < |s.rngs| && conn < |s.keysOf|
         && var d := NextInt(s.rngs[conn], c.KeyBound());
            s' == SetPc(s, w, Issuing)
                  .(rngs := s.rngs[conn := d.state], keysOf := s.keysOf[conn := s.keysOf[conn] + [d.value]])
  }

  /** The command settles, successfully or not, and is recorded in the worker's own collector. */
  predicate RecordStep(c: Config, s: State, s': State, w: nat, r: M.CommandResult) {
    && At(s, w, Issuing)
    && s' == s.(workers := s.workers[w := s.workers[w].(pc := Ready, results := s.workers[w].results + [r])],
                log := s.log + [Recorded(s.workers[w].ticket, r)])
  }

  predicate MergeStep(c: Config, s: State, s': State, w: nat, start: int, stop: int) {
    && At(s, w, Exited)
    && s' == SetPc(s, w, Merged)
             .(merged := s.merged + [M.Worker(s.workers[w].results, Some(start), Some(stop))])
  }

  /** A panic while a request is in flight loses it; the collector survives only in Go. */
  predicate PanicStep(c: Config, s: State, s': State, w: nat) {
    && (At(s, w, Claimed) || At(s, w, Admitted) || At(s, w, Issuing))
    && var lostTickets := s.lostTickets + [s.workers[w].ticket];
       s' == if c.keepsOnPanic then SetPc(s, w, Exited).(lost := s.lost + 1, lostTickets := lostTickets)
             else SetPc(s, w, Dead).(lost := s.lost + 1 + |s.workers[w].results|, lostTickets := lostTickets,
                                     dropped := s.dropped + s.workers[w].results)
  }

  predicate InterruptStep(c: Config, s: State, s': State) {
    !s.interrupted && s' == s.(interrupted := true)
  }

  /** The steps that neither record, merge nor panic. */
  predicate ControlStep(c: Config, s: State, s': State, w: nat) {
    SeeInterrupt(c, s, s', w) || ClaimStep(c, s, s', w) || ClockStep(c, s, s', w) ||
    PassStep(c, s, s', w) || SelectKeyless(c, s, s', w) || DrawKey(c, s, s', w)
  }

  ghost predicate WorkerStep(c: Config, s: State, s': State, w: nat) {
    || ControlStep(c, s, s', w)
    || (exists r :: RecordStep(c, s, s', w, r))
    || (exists start, stop :: MergeStep(c, s, s', w, start, stop))
    || PanicStep(c, s, s', w)
  }

  ghost predicate Step(c: Config, s: State, s': State) {
    InterruptStep(c, s, s') || exists w: nat :: w < |s.workers| && WorkerStep(c, s, s', w)
  }

  // ----- the invariant -------------------------------------------------------------

  /** Tickets a worker holds: its unmerged results, and the request in flight. */
  function Held(w: Worker): nat {
    match w.pc
    case Claimed | Admitted | Issuing => |w.results| + 1
    case Ready | Exited => |w.results|
    case Merged | Dead => 0
  }

  function Stopped(w: Worker): nat {
    if w.pc.Exited? || w.pc.Merged? || w.pc.Dead? then 1 else 0
  }

  /** Steps a worker has left, apart from new claims. */
  function Weight(w: Worker): nat {
    match w.pc
    case Claimed => 5
    case Admitted => 4
    case Issuing => 3
    case Ready => 2
    case Exited => 1
    case Merged | Dead => 0
  }

  /** The random keys of a generator, and its state, after n draws. */
  function RngAfter(rng: State48, bound: Bound, n: nat): State48 {
    if n == 0 then rng else NextInt(RngAfter(rng, bound, n - 1), bound).state
  }

  function RandomKeys(rng: State48, bound: Bound, n: nat): (keys: seq<int>)
    ensures |keys| == n
  {
    if n == 0 then []
    else RandomKeys(rng, bound, n - 1) + [NextInt(RngAfter(rng, bound, n - 1), bound).value]
  }

  function SequentialKeys(n: nat, keysCount: nat): (keys: seq<int>)
    requires keysCount > 0
    ensures |keys| == n
  {
    if n == 0 then [] else SequentialKeys(n - 1, keysCount) + [(n - 1) % keysCount]
  }

  /** Every ticket is in flight, recorded by one worker, merged, or lost to a panic. */
  predicate TicketsConserved(s: State) {
    s.issued == Sum(s.workers, Held) + |M.AllResults(s.merged)| + s.lost
  }

  predicate BudgetInv(c: Config, s: State) {
    && B.Valid(c.target, s.budget)
    && (!c.durationBased ==> s.issued == B.Issued(c.target, s.budget))
    && B.Overshoot(c.target, s.budget) <= Sum(s.workers, Stopped)
  }

  /** Without an interrupt or a panic a worker stops only when the budget is spent. */
  predicate StopInv(c: Config, s: State) {
    !c.durationBased && !s.interrupted && s.lost == 0 && Sum(s.workers, Stopped) > 0 ==> s.issued == c.target
  }

  predicate KeysInv(c: Config, s: State) {
    && |s.rngs| == |s.keysOf| == c.connections
    && s.drawn == SequentialKeys(s.nextKey, c.KeyCount())
    && (forall i :: 0 <= i < c.connections ==>
          && (c.sequential ==> s.keysOf[i] == [])
          && s.keysOf[i] == RandomKeys(c.InitialRng(i), c.KeyBound(), |s.keysOf[i]|)
          && s.rngs[i] == RngAfter(c.InitialRng(i), c.KeyBound(), |s.keysOf[i]|))
  }

  predicate Inv(c: Config, s: State) {
    && |s.workers| == c.WorkerCount()
    && TicketsConserved(s) && BudgetInv(c, s) && StopInv(c, s) && KeysInv(c, s)
  }

  lemma InitInv(c: Config, s: State)
    requires c.Valid() && Init(c, s)
    ensures Inv(c, s)
  {
    SumZero(s.workers, Held);
    SumZero(s.workers, Stopped);
  }

  predicate OneMoved(s: State, s': State, w: nat) {
    w < |s.workers| == |s'.workers| && s'.workers == s.workers[w := s'.workers[w]]
  }

  /** What the steps that neither record, merge nor panic do to the rest of the state. */
  predicate ControlEffect(s: State, s': State, w: nat) {
    && OneMoved(s, s', w) && s'.log == s.log && s'.lostTickets == s.lostTickets && s'.lost == s.lost
    && s'.merged == s.merged && s'.dropped == s.dropped && s'.interrupted == s.interrupted
    && |s'.limiters| == |s.limiters|
    && var before, after := s.workers[w], s'.workers[w];
       && after.results == before.results && after.connection == before.connection
       && (|| (s'.issued == s.issued + 1 && before.pc == Ready && after.pc == Claimed && after.ticket == s.issued)
           || (s'.issued == s.issued && before.pc == Ready && after.pc == Exited)
           || (s'.issued == s.issued && before.pc == Claimed && after.pc == Admitted && after.ticket == before.ticket)
           || (s'.issued == s.issued && before.pc == Admitted && after.pc == Issuing && after.ticket == before.ticket))
  }

  lemma TakeEffect(c: Config, s: State, s': State, w: nat)
    requires SeeInterrupt(c, s, s', w) || ClaimStep(c, s, s', w) || ClockStep(c, s, s', w)
    ensures ControlEffect(s, s', w)
  {
  }

  lemma PassEffect(c: Config, s: State, s': State, w: nat)
    requires PassStep(c, s, s', w)
    ensures ControlEffect(s, s', w)
  {
  }

  lemma DrawEffect(c: Config, s: State, s': State, w: nat)
    requires SelectKeyless(c, s, s', w) || DrawKey(c, s, s', w)
    ensures ControlEffect(s, s', w)
  {
  }

  lemma ControlFrame(c: Config, s: State, s': State, w: nat)
    requires ControlStep(c, s, s', w)
    ensures ControlEffect(s, s', w)
  {
    if PassStep(c, s, s', w) {
      PassEffect(c, s, s', w);
    } else if SelectKeyless(c, s, s', w) || DrawKey(c, s, s', w) {
      DrawEffect(c, s, s', w);
    } else {
      TakeEffect(c, s, s', w);
    }
  }

  /** The effect of one worker's change on the sums. */
  lemma Moved(s: State, w: nat, worker: Worker)
    requires w < |s.workers|
    ensures var ws := s.workers[w := worker];
            && Sum(ws, Held) + Held(s.workers[w]) == Sum(s.workers, Held) + Held(worker)
            && Sum(ws, Stopped) + Stopped(s.workers[w]) == Sum(s.workers, Stopped) + Stopped(worker)
            && Sum(ws, Weight) + Weight(s.workers[w]) == Sum(s.workers, Weight) + Weight(worker)
  {
    SumUpdate(s.workers, w, worker, Held);
    SumUpdate(s.workers, w, worker, Stopped);
    SumUpdate(s.workers, w, worker, Weight);
  }

  lemma AllResultsAppend(merged: seq<M.Worker>, m: M.Worker)
    ensures |M.AllResults(merged + [m])| == |M.AllResults(merged)| + |m.results|
  {
    assert (merged + [m])[..|merged|] == merged;
  }

  lemma ClaimInv(c: Config, s: State, s': State, w: nat)
    requires Inv(c, s) && ClaimStep(c, s, s', w)
    ensures Inv(c, s')
  {
    Moved(s, w, s'.workers[w]);
    B.ClaimDispensesTicket(c.target, s.budget);
  }

  lemma ClockInv(c: Config, s: State, s': State, w: nat)
    requires Inv(c, s) && ClockStep(c, s, s', w)
    ensures Inv(c, s')
  {
    Moved(s, w, s'.workers[w]);
  }

  lemma InterruptInv(c: Config, s: State, s': State, w: nat)
    requires Inv(c, s) && SeeInterrupt(c, s, s', w)
    ensures Inv(c, s')
  {
    Moved(s, w, s'.workers[w]);
  }

  /** Draws do not touch the budget; the sums move as for any change of pc. */
  lemma DrawKeepsTickets(c: Config, s: State, s': State, w: nat)
    requires Inv(c, s) && ControlEffect(s, s', w) && s'.issued == s.issued && s'.budget == s.budget
    requires s'.workers[w].pc == Admitted || s'.workers[w].pc == Issuing
    ensures |s'.workers| == c.WorkerCount() && TicketsConserved(s') && BudgetInv(c, s') && StopInv(c, s')
  {
    Moved(s, w, s'.workers[w]);
  }

  lemma DrawFrame(c: Config, s: State, s': State, w: nat)
    requires PassStep(c, s, s', w) || SelectKeyless(c, s, s', w) || DrawKey(c, s, s', w)
    ensures s'.issued == s.issued && s'.budget == s.budget && w < |s'.workers|
    ensures s'.workers[w].pc == Admitted || s'.workers[w].pc == Issuing
  {
  }

  lemma DrawKeepsKeys(c: Config, s: State, s': State, w: nat)
    requires KeysInv(c, s) && (PassStep(c, s, s', w) || SelectKeyless(c, s, s', w) || DrawKey(c, s, s', w))
    ensures KeysInv(c, s')
  {
    if DrawKey(c, s, s', w) && !c.sequential {
      var conn := s.workers[w].connection;
      var d := NextInt(s.rngs[conn], c.KeyBound());
      RandomKeyLast(c.InitialRng(conn), c.KeyBound(), s.keysOf[conn], s.rngs[conn], d);
    }
  }

  lemma RandomKeyLast(rng: State48, bound: Bound, keys: seq<int>, now: State48, d: Drawn)
    requires keys == RandomKeys(rng, bound, |keys|) && now == RngAfter(rng, bound, |keys|) && d == NextInt(now, bound)
    ensures keys + [d.value] == RandomKeys(rng, bound, |keys + [d.value]|)
    ensures d.state == RngAfter(rng, bound, |keys + [d.value]|)
  {
  }

  lemma RecordInv(c: Config, s: State, s': State, w: nat, r: M.CommandResult)
    requires Inv(c, s) && RecordStep(c, s, s', w, r)
    ensures Inv(c, s')
  {
    Moved(s, w, s'.workers[w]);
  }

  lemma MergeInv(c: Config, s: State, s': State, w: nat, start: int, stop: int)
    requires Inv(c, s) && MergeStep(c, s, s', w, start, stop)
    ensures Inv(c, s')
  {
    Moved(s, w, s'.workers[w]);
    AllResultsAppend(s.merged, s'.merged[|s.merged|]);
  }

  lemma PanicFrame(c: Config, s: State, s': State, w: nat)
    requires PanicStep(c, s, s', w)
    ensures OneMoved(s, s', w) && s'.log == s.log && s'.issued == s.issued && s'.merged == s.merged
    ensures s'.interrupted == s.interrupted && s'.limiters == s.limiters
    ensures s'.lostTickets == s.lostTickets + [s.workers[w].ticket]
    ensures s'.dropped == if c.keepsOnPanic then s.dropped else s.dropped + s.workers[w].results
    ensures s'.lost == s.lost + 1 + if c.keepsOnPanic then 0 else |s.workers[w].results|
    ensures s.workers[w].pc == Claimed || s.workers[w].pc == Admitted || s.workers[w].pc == Issuing
    ensures s'.workers[w] == s.workers[w].(pc := if c.keepsOnPanic then Exited else Dead)
  {
  }

  lemma PanicInv(c: Config, s: State, s': State, w: nat)
    requires Inv(c, s) && PanicStep(c, s, s', w)
    ensures Inv(c, s')
  {
    PanicFrame(c, s, s', w);
    Moved(s, w, s'.workers[w]);
  }

  lemma StepInv(c: Config, s: State, s': State)
    requires Inv(c, s) && Step(c, s, s')
    ensures Inv(c, s')
  {
    if !InterruptStep(c, s, s') {
      var w: nat :| w < |s.workers| && WorkerStep(c, s, s', w);
      if SeeInterrupt(c, s, s', w) {
        InterruptInv(c, s, s', w);
      } else if ClaimStep(c, s, s', w) {
        ClaimInv(c, s, s', w);
      } else if ClockStep(c, s, s', w) {
        ClockInv(c, s, s', w);
      } else if PassStep(c, s, s', w) || SelectKeyless(c, s, s', w) || DrawKey(c, s, s', w) {
        ControlFrame(c, s, s', w);
        DrawFrame(c, s, s', w);
        DrawKeepsTickets(c, s, s', w);
        DrawKeepsKeys(c, s, s', w);
      } else if PanicStep(c, s, s', w) {
        PanicInv(c, s, s', w);
      } else if r :| RecordStep(c, s, s', w, r) {
        RecordInv(c, s, s', w, r);
      } else {
        var start, stop :| MergeStep(c, s, s', w, start, stop);
        MergeInv(c, s, s', w, start, stop);
      }
    }
  }

  // ----- what becomes of each ticket and each result -----------------------------------

  function Tickets(log: seq<Recorded>): seq<nat> {
    if log == [] then [] else Tickets(log[..|log| - 1]) + [log[|log| - 1].ticket]
  }

  function Results(log: seq<Recorded>): seq<M.CommandResult> {
    if log == [] then [] else Results(log[..|log| - 1]) + [log[|log| - 1].result]
  }

  /** Whether a worker has this ticket's request in hand. */
  function Holding(ticket: nat): Worker -> nat {
    (w: Worker) => if (w.pc == Claimed || w.pc == Admitted || w.pc == Issuing) && w.ticket == ticket then 1 else 0
  }

  /** How often a worker's unmerged collector was given this result. */
  function Keeping(r: M.CommandResult): Worker -> nat {
    (w: Worker) => if w.pc == Merged || w.pc == Dead then 0 else Times(w.results, r)
  }

  /** A ticket that was handed out is recorded, in flight or lost, and once; any other not at all. */
  predicate TicketOnce(s: State, ticket: nat) {
    Times(Tickets(s.log), ticket) + Sum(s.workers, Holding(ticket)) + Times(s.lostTickets, ticket)
    == if ticket < s.issued then 1 else 0
  }

  /** A result is in the collectors, merged or not, or dropped, as often as it was recorded. */
  predicate ResultKept(s: State, r: M.CommandResult) {
    Times(M.AllResults(s.merged), r) + Sum(s.workers, Keeping(r)) + Times(s.dropped, r) == Times(Results(s.log), r)
  }

  lemma TicketsLast(log: seq<Recorded>, e: Recorded)
    ensures Tickets(log + [e]) == Tickets(log) + [e.ticket] && Results(log + [e]) == Results(log) + [e.result]
  {
    assert (log + [e])[..|log|] == log;
  }

  lemma MergedLast(merged: seq<M.Worker>, m: M.Worker)
    ensures M.AllResults(merged + [m]) == M.AllResults(merged) + m.results
  {
    assert (merged + [m])[..|merged|] == merged;
  }

  /** A step that changes one worker keeps the balance of a ticket when it does so at that worker. */
  lemma TicketBalance(s: State, s': State, w: nat, ticket: nat, recorded: nat, lost: nat, issued: nat)
    requires OneMoved(s, s', w) && TicketOnce(s, ticket)
    requires Times(Tickets(s'.log), ticket) == Times(Tickets(s.log), ticket) + recorded
    requires Times(s'.lostTickets, ticket) == Times(s.lostTickets, ticket) + lost
    requires (if ticket < s'.issued then 1 else 0) == (if ticket < s.issued then 1 else 0) + issued
    requires recorded + lost + Holding(ticket)(s'.workers[w]) == Holding(ticket)(s.workers[w]) + issued
    ensures TicketOnce(s', ticket)
  {
    SumUpdate(s.workers, w, s'.workers[w], Holding(ticket));
  }

  function Is(ticket: nat, other: nat): nat {
    if ticket == other then 1 else 0
  }

  lemma PanicKeepsTicket(c: Config, s: State, s': State, w: nat, ticket: nat)
    requires TicketOnce(s, ticket) && PanicStep(c, s, s', w)
    ensures TicketOnce(s', ticket)
  {
    PanicFrame(c, s, s', w);
    var mine := s.workers[w].ticket;
    TimesAppend(s.lostTickets, [mine], ticket);
    TicketBalance(s, s', w, ticket, 0, Is(mine, ticket), 0);
  }

  lemma RecordKeepsTicket(c: Config, s: State, s': State, w: nat, r: M.CommandResult, ticket: nat)
    requires TicketOnce(s, ticket) && RecordStep(c, s, s', w, r)
    ensures TicketOnce(s', ticket)
  {
    var mine := s.workers[w].ticket;
    TicketsLast(s.log, Recorded(mine, r));
    TimesAppend(Tickets(s.log), [mine], ticket);
    TicketBalance(s, s', w, ticket, Is(mine, ticket), 0, 0);
  }

  lemma ControlKeepsTicket(c: Config, s: State, s': State, w: nat, ticket: nat)
    requires TicketOnce(s, ticket) && ControlStep(c, s, s', w)
    ensures TicketOnce(s', ticket)
  {
    ControlFrame(c, s, s', w);
    TicketBalance(s, s', w, ticket, 0, 0, if s'.issued > s.issued then Is(s.issued, ticket) else 0);
  }

  lemma MergeKeepsTicket(c: Config, s: State, s': State, w: nat, start: int, stop: int, ticket: nat)
    requires TicketOnce(s, ticket) && MergeStep(c, s, s', w, start, stop)
    ensures TicketOnce(s', ticket)
  {
    TicketBalance(s, s', w, ticket, 0, 0, 0);
  }

  lemma WorkerKeepsTicket(c: Config, s: State, s': State, w: nat, ticket: nat)
    requires TicketOnce(s, ticket) && WorkerStep(c, s, s', w)
    ensures TicketOnce(s', ticket)
  {
    if PanicStep(c, s, s', w) {
      PanicKeepsTicket(c, s, s', w, ticket);
    } else if r :| RecordStep(c, s, s', w, r) {
      RecordKeepsTicket(c, s, s', w, r, ticket);
    } else if start, stop :| MergeStep(c, s, s', w, start, stop) {
      MergeKeepsTicket(c, s, s', w, start, stop, ticket);
    } else {
      ControlKeepsTicket(c, s, s', w, ticket);
    }
  }

  lemma ResultBalance(s: State, s': State, w: nat, r: M.CommandResult, merged: nat, dropped: nat, recorded: nat)
    requires OneMoved(s, s', w) && ResultKept(s, r)
    requires Times(M.AllResults(s'.merged), r) == Times(M.AllResults(s.merged), r) + merged
    requires Times(s'.dropped, r) == Times(s.dropped, r) + dropped
    requires Times(Results(s'.log), r) == Times(Results(s.log), r) + recorded
    requires merged + dropped + Keeping(r)(s'.workers[w]) == Keeping(r)(s.workers[w]) + recorded
    ensures ResultKept(s', r)
  {
    SumUpdate(s.workers, w, s'.workers[w], Keeping(r));
  }

  lemma PanicKeepsResult(c: Config, s: State, s': State, w: nat, r: M.CommandResult)
    requires ResultKept(s, r) && PanicStep(c, s, s', w)
    ensures ResultKept(s', r)
  {
    PanicFrame(c, s, s', w);
    var results := s.workers[w].results;
    TimesAppend(s.dropped, results, r);
    ResultBalance(s, s', w, r, 0, if c.keepsOnPanic then 0 else Times(results, r), 0);
  }

  lemma RecordKeepsResult(c: Config, s: State, s': State, w: nat, q: M.CommandResult, r: M.CommandResult)
    requires ResultKept(s, r) && RecordStep(c, s, s', w, q)
    ensures ResultKept(s', r)
  {
    TicketsLast(s.log, Recorded(s.workers[w].ticket, q));
    TimesAppend(Results(s.log), [q], r);
    TimesAppend(s.workers[w].results, [q], r);
    ResultBalance(s, s', w, r, 0, 0, Times([q], r));
  }

  lemma MergeKeepsResult(c: Config, s: State, s': State, w: nat, start: int, stop: int, r: M.CommandResult)
    requires ResultKept(s, r) && MergeStep(c, s, s', w, start, stop)
    ensures ResultKept(s', r)
  {
    var results := s.workers[w].results;
    MergedLast(s.merged, s'.merged[|s.merged|]);
    TimesAppend(M.AllResults(s.merged), results, r);
    ResultBalance(s, s', w, r, Times(results, r), 0, 0);
  }

  lemma ControlKeepsResult(c: Config, s: State, s': State, w: nat, r: M.CommandResult)
    requires ResultKept(s, r) && ControlStep(c, s, s', w)
    ensures ResultKept(s', r)
  {
    ControlFrame(c, s, s', w);
    ResultBalance(s, s', w, r, 0, 0, 0);
  }

  lemma WorkerKeepsResult(c: Config, s: State, s': State, w: nat, r: M.CommandResult)
    requires ResultKept(s, r) && WorkerStep(c, s, s', w)
    ensures ResultKept(s', r)
  {
    if PanicStep(c, s, s', w) {
      PanicKeepsResult(c, s, s', w, r);
    } else if q :| RecordStep(c, s, s', w, q) {
      RecordKeepsResult(c, s, s', w, q, r);
    } else if start, stop :| MergeStep(c, s, s', w, start, stop) {
      MergeKeepsResult(c, s, s', w, start, stop, r);
    } else {
      ControlKeepsResult(c, s, s', w, r);
    }
  }

  lemma WorkerDrops(c: Config, s: State, s': State, w: nat)
    requires WorkerStep(c, s, s', w)
    ensures c.keepsOnPanic ==> s'.dropped == s.dropped
    ensures s'.lost - |s'.dropped| - |s'.lostTickets| == s.lost - |s.dropped| - |s.lostTickets|
    ensures s'.lostTickets == s.lostTickets ==> s'.dropped == s.dropped
    ensures s'.lostTickets == [] ==> s.lostTickets == []
  {
    if ControlStep(c, s, s', w) {
      ControlFrame(c, s, s', w);
    } else if PanicStep(c, s, s', w) {
      PanicFrame(c, s, s', w);
    } else if r :| RecordStep(c, s, s', w, r) {
      assert s'.dropped == s.dropped && s'.lost == s.lost;
    } else {
      var start, stop :| MergeStep(c, s, s', w, start, stop);
      assert s'.dropped == s.dropped && s'.lost == s.lost;
    }
  }

  // ----- runs ----------------------------------------------------------------------

  ghost predicate IsRun(c: Config, run: seq<State>) {
    && run != [] && Init(c, run[0])
    && forall i :: 0 <= i < |run| - 1 ==> Step(c, run[i], run[i + 1])
  }

  lemma Prefix(c: Config, run: seq<State>)
    requires IsRun(c, run) && |run| > 1
    ensures var n := |run| - 1; IsRun(c, run[..n]) && Step(c, run[n - 1], run[n])
  {
    var n := |run| - 1;
    assert Step(c, run[n - 1], run[n - 1 + 1]);
  }

  lemma {:induction false} RunInv(c: Config, run: seq<State>)
    requires c.Valid() && IsRun(c, run)
    ensures Inv(c, run[|run| - 1])
  {
    var n := |run| - 1;
    if n == 0 {
      InitInv(c, run[0]);
    } else {
      Prefix(c, run);
      RunInv(c, run[..n]);
      StepInv(c, run[n - 1], run[n]);
    }
  }

  predicate AllDone(s: State) {
    forall w :: 0 <= w < |s.workers| ==> s.workers[w].pc == Merged || s.workers[w].pc == Dead
  }

  /**
    In every run, whatever the interleaving: claims never exceed the target, every
    claimed ticket is in flight, recorded once, or lost to a panic, and refused
    claims never push the counter below minus the number of workers.
   */
  lemma ClaimsNeverExceedTarget(c: Config, run: seq<State>)
    requires c.Valid() && IsRun(c, run) && !c.durationBased
    ensures var s := run[|run| - 1];
            && s.issued <= c.target
            && s.issued == Sum(s.workers, Held) + |M.AllResults(s.merged)| + s.lost
            && B.Overshoot(c.target, s.budget) <= c.WorkerCount()
  {
    RunInv(c, run);
    SumAtMost(run[|run| - 1].workers, Stopped, 1);
  }

  /** A run that stops without interrupt or panic has recorded exactly target requests. */
  lemma ExactTarget(c: Config, l: Layout, run: seq<State>)
    requires c.Valid() && IsRun(c, run) && !c.durationBased && M.Tracks(l)
    requires var s := run[|run| - 1]; AllDone(s) && !s.interrupted && s.lost == 0
    ensures M.MergeAll(l, run[|run| - 1].merged).totalRequests == c.target
  {
    var s := run[|run| - 1];
    RunInv(c, run);
    SumZero(s.workers, Held);
    MulAtLeast(c.connections, c.depth);
    SumUpdate(s.workers, 0, s.workers[0].(pc := Ready), Stopped);
    M.MergeOrderIrrelevant(l, s.merged, M.AllResults(s.merged));
  }

  /** With an interrupt or panics, the merged collector still holds every ticket that was not lost. */
  lemma NothingElseIsLost(c: Config, l: Layout, run: seq<State>)
    requires c.Valid() && IsRun(c, run) && M.Tracks(l) && AllDone(run[|run| - 1])
    ensures var s := run[|run| - 1]; M.MergeAll(l, s.merged).totalRequests + s.lost == s.issued
  {
    var s := run[|run| - 1];
    RunInv(c, run);
    SumZero(s.workers, Held);
    M.MergeOrderIrrelevant(l, s.merged, M.AllResults(s.merged));
  }

  /** In every run each ticket handed out is in one place once: recorded, in flight or lost. */
  lemma {:induction false} EachTicketOnce(c: Config, run: seq<State>, ticket: nat)
    requires c.Valid() && IsRun(c, run)
    ensures TicketOnce(run[|run| - 1], ticket)
  {
    var n := |run| - 1;
    if n == 0 {
      SumZero(run[0].workers, Holding(ticket));
    } else {
      Prefix(c, run);
      EachTicketOnce(c, run[..n], ticket);
      var s, s' := run[n - 1], run[n];
      if !InterruptStep(c, s, s') {
        var w: nat :| w < |s.workers| && WorkerStep(c, s, s', w);
        WorkerKeepsTicket(c, s, s', w, ticket);
      }
    }
  }

  /** And each recorded result is in one collector, unless a panic dropped it. */
  lemma {:induction false} EachResultKept(c: Config, run: seq<State>, r: M.CommandResult)
    requires c.Valid() && IsRun(c, run)
    ensures ResultKept(run[|run| - 1], r)
  {
    var n := |run| - 1;
    if n == 0 {
      SumZero(run[0].workers, Keeping(r));
    } else {
      Prefix(c, run);
      EachResultKept(c, run[..n], r);
      var s, s' := run[n - 1], run[n];
      if !InterruptStep(c, s, s') {
        var w: nat :| w < |s.workers| && WorkerStep(c, s, s', w);
        WorkerKeepsResult(c, s, s', w, r);
      }
    }
  }

  /** A panic loses the ticket in hand and what it drops, and in Go it drops nothing. */
  predicate DropsCounted(c: Config, s: State) {
    && s.lost == |s.dropped| + |s.lostTickets| && (s.dropped != [] ==> s.lostTickets != [])
    && (c.keepsOnPanic ==> s.dropped == [])
  }

  lemma StepDrops(c: Config, s: State, s': State)
    requires DropsCounted(c, s) && Step(c, s, s')
    ensures DropsCounted(c, s')
  {
    if !InterruptStep(c, s, s') {
      var w: nat :| w < |s.workers| && WorkerStep(c, s, s', w);
      WorkerDrops(c, s, s', w);
    }
  }

  lemma {:induction false} NothingDropped(c: Config, run: seq<State>)
    requires c.Valid() && IsRun(c, run)
    ensures DropsCounted(c, run[|run| - 1])
  {
    var n := |run| - 1;
    if n > 0 {
      Prefix(c, run);
      NothingDropped(c, run[..n]);
      StepDrops(c, run[n - 1], run[n]);
    }
  }

  /**
    When all workers are done, the merged collector has the data of one collector fed
    the recorded results in the order in which they were recorded, unless a panic
    dropped a collector.
   */
  lemma MergedIsLog(c: Config, l: Layout, run: seq<State>)
    requires c.Valid() && IsRun(c, run) && M.Tracks(l) && AllDone(run[|run| - 1])
    requires c.keepsOnPanic || run[|run| - 1].lost == 0
    ensures var s := run[|run| - 1];
            && multiset(M.AllResults(s.merged)) == multiset(Results(s.log))
            && M.SameData(M.MergeAll(l, s.merged), M.FromResults(l, Results(s.log)))
  {
    var s := run[|run| - 1];
    NothingDropped(c, run);
    forall r: M.CommandResult
      ensures multiset(M.AllResults(s.merged))[r] == multiset(Results(s.log))[r]
    {
      EachResultKept(c, run, r);
      SumZero(s.workers, Keeping(r));
      TimesIsMultiplicity(M.AllResults(s.merged), r);
      TimesIsMultiplicity(Results(s.log), r);
    }
    M.MergeOrderIrrelevant(l, s.merged, Results(s.log));
  }

  /** So the reported percentile is the ranked latency of what was recorded, within one part in 1024. */
  lemma ReportedPercentile(c: Config, l: Layout, run: seq<State>, name: M.Name, maxValue: int, p: real) returns (x: nat)
    requires l == LayoutFor(1, 600_000_000, 3)
    requires c.Valid() && IsRun(c, run) && AllDone(run[|run| - 1])
    requires c.keepsOnPanic || run[|run| - 1].lost == 0
    requires E.Latencies(Results(run[|run| - 1].log), name) != []
    ensures AtPercentile(E.Latencies(Results(run[|run| - 1].log), name), Percent(p), x)
    ensures var m := M.Get(M.MergeAll(l, run[|run| - 1].merged), name);
            var v := ValueAtPercentile(l, m.counts, m.samples, maxValue, p);
            if x <= 600_000_000 then x <= v && (v - x) * 1024 <= x else v == 600_309_759
  {
    var s := run[|run| - 1];
    M.DefaultTracks(l);
    MergedIsLog(c, l, run);
    x := E.MergedPercentile(l, s.merged, Results(s.log), name, maxValue, p);
  }

  datatype Status = Completed | Interrupted | Error

  /** The status of a phase: any panic is an error, and so is a phase in which nothing succeeded. */
  function PhaseStatus(s: State, total: nat, errors: nat): Status {
    if s.interrupted then Interrupted
    else if s.lost > 0 then Error
    else if total > 0 && total == errors then Error
    else Completed
  }

  /** Each status is reported exactly when an interrupt, a panic and the recorded results call for it. */
  lemma StatusReported(c: Config, l: Layout, run: seq<State>)
    requires c.Valid() && IsRun(c, run) && M.Tracks(l) && AllDone(run[|run| - 1])
    ensures var s, m := run[|run| - 1], M.MergeAll(l, run[|run| - 1].merged);
            var status, recorded := PhaseStatus(s, m.totalRequests, m.totalErrors), M.AllResults(s.merged);
            && (status == Interrupted <==> s.interrupted)
            && (status == Error <==>
                  !s.interrupted && (s.lostTickets != [] || (recorded != [] && forall r <- recorded :: !r.success)))
            && (status == Completed <==>
                  !s.interrupted && s.lostTickets == [] && (recorded != [] ==> exists r <- recorded :: r.success))
  {
    var s, m := run[|run| - 1], M.MergeAll(l, run[|run| - 1].merged);
    var recorded := M.AllResults(s.merged);
    NothingDropped(c, run);
    M.MergedCounts(l, s.merged, recorded, M.Name(""));
    M.CountAll(recorded, M.Fails());
    assert m.totalRequests == m.totalErrors <==> forall r <- recorded :: !r.success;
  }

  /** A request-based phase reported COMPLETED recorded exactly its target, not all of it errors. */
  lemma CompletedIsExact(c: Config, l: Layout, run: seq<State>)
    requires c.Valid() && IsRun(c, run) && !c.durationBased && M.Tracks(l) && AllDone(run[|run| - 1])
    ensures var s, m := run[|run| - 1], M.MergeAll(l, run[|run| - 1].merged);
            PhaseStatus(s, m.totalRequests, m.totalErrors) == Completed ==>
              m.totalRequests == c.target && (c.target > 0 ==> m.totalErrors != m.totalRequests)
  {
    var s := run[|run| - 1];
    if !s.interrupted && s.lost == 0 {
      ExactTarget(c, l, run);
    }
  }

  // ----- every run ends ------------------------------------------------------------

  function Measure(c: Config, s: State): int {
    4 * (c.target - s.issued) + Sum(s.workers, Weight) + if s.interrupted then 0 else 1
  }

  lemma ClaimShrinks(c: Config, s: State, s': State, w: nat)
    requires BudgetInv(c, s) && !c.durationBased && (ClaimStep(c, s, s', w) || SeeInterrupt(c, s, s', w))
    ensures Measure(c, s') < Measure(c, s)
  {
    Moved(s, w, s'.workers[w]);
    B.ClaimDispensesTicket(c.target, s.budget);
  }

  lemma MovedShrinks(c: Config, s: State, s': State, w: nat)
    requires OneMoved(s, s', w) && s'.issued == s.issued && s'.interrupted == s.interrupted
    requires Weight(s'.workers[w]) < Weight(s.workers[w])
    ensures Measure(c, s') < Measure(c, s)
  {
    Moved(s, w, s'.workers[w]);
  }

  lemma WorkShrinks(c: Config, s: State, s': State, w: nat)
    requires w < |s.workers| && !c.durationBased && WorkerStep(c, s, s', w)
    requires !ClaimStep(c, s, s', w) && !SeeInterrupt(c, s, s', w)
    ensures Measure(c, s') < Measure(c, s)
  {
    if ControlStep(c, s, s', w) {
      ControlFrame(c, s, s', w);
      DrawFrame(c, s, s', w);
    } else if PanicStep(c, s, s', w) {
      PanicFrame(c, s, s', w);
    } else if r :| RecordStep(c, s, s', w, r) {
      assert OneMoved(s, s', w);
    } else {
      var start, stop :| MergeStep(c, s, s', w, start, stop);
      assert OneMoved(s, s', w);
    }
    MovedShrinks(c, s, s', w);
  }

  lemma StepShrinks(c: Config, s: State, s': State)
    requires Inv(c, s) && Step(c, s, s') && !c.durationBased
    ensures Measure(c, s') < Measure(c, s)
  {
    if !InterruptStep(c, s, s') {
      var w: nat :| w < |s.workers| && WorkerStep(c, s, s', w);
      if ClaimStep(c, s, s', w) || SeeInterrupt(c, s, s', w) {
        ClaimShrinks(c, s, s', w);
      } else {
        WorkShrinks(c, s, s', w);
      }
    }
  }

  lemma {:induction false} MeasureFalls(c: Config, run: seq<State>)
    requires c.Valid() && IsRun(c, run) && !c.durationBased
    ensures |run| - 1 + Measure(c, run[|run| - 1]) <= 4 * c.target + 2 * c.WorkerCount() + 1
  {
    var n := |run| - 1;
    if n == 0 {
      ReadyWeights(run[0].workers);
    } else {
      Prefix(c, run);
      MeasureFalls(c, run[..n]);
      RunInv(c, run[..n]);
      StepShrinks(c, run[n - 1], run[n]);
    }
  }

  /** No run of a request-based phase has more than 4 target + 2 workers + 1 steps. */
  lemma RunsAreBounded(c: Config, run: seq<State>)
    requires c.Valid() && IsRun(c, run) && !c.durationBased
    ensures |run| - 1 <= 4 * c.target + 2 * c.WorkerCount() + 1
  {
    RunInv(c, run);
    MeasureFalls(c, run);
  }

  lemma {:induction false} ReadyWeights(ws: seq<Worker>)
    requires forall w :: 0 <= w < |ws| ==> ws[w].pc == Ready
    ensures Sum(ws, Weight) == 2 * |ws|
  {
    if ws != [] {
      ReadyWeights(ws[..|ws| - 1]);
    }
  }

  /** Every worker's connection has its limiter. */
  predicate Fits(c: Config, s: State) {
    |s.limiters| == |c.intervals| && forall w :: 0 <= w < |s.workers| ==> s.workers[w].connection < c.connections
  }

  lemma WorkerFits(c: Config, s: State, s': State, w: nat)
    requires Fits(c, s) && WorkerStep(c, s, s', w)
    ensures Fits(c, s')
  {
    if ControlStep(c, s, s', w) {
      ControlFrame(c, s, s', w);
    } else if PanicStep(c, s, s', w) {
      PanicFrame(c, s, s', w);
    } else if r :| RecordStep(c, s, s', w, r) {
      assert OneMoved(s, s', w);
    } else {
      var start, stop :| MergeStep(c, s, s', w, start, stop);
      assert OneMoved(s, s', w);
    }
  }

  lemma {:induction false} RunFits(c: Config, run: seq<State>)
    requires c.Valid() && IsRun(c, run)
    ensures Fits(c, run[|run| - 1])
  {
    var n := |run| - 1;
    if n > 0 {
      Prefix(c, run);
      RunFits(c, run[..n]);
      var s, s' := run[n - 1], run[n];
      if !InterruptStep(c, s, s') {
        var w: nat :| w < |s.workers| && WorkerStep(c, s, s', w);
        WorkerFits(c, s, s', w);
      }
    }
  }

  /** The limiter lets worker w through as soon as it can. */
  lemma CanPass(c: Config, s: State, w: nat) returns (s': State)
    requires c.Valid() && Fits(c, s) && At(s, w, Claimed)
    ensures PassStep(c, s, s', w)
  {
    if c.intervals == [] {
      s' := SetPc(s, w, Admitted).(passed := s.passed + [s.workers[w].connection]);
    } else {
      var i := c.LimiterOf(s.workers[w].connection);
      var now := if s.clock >= s.limiters[i].next then s.clock else s.limiters[i].next;
      s' := SetPc(s, w, Admitted).(clock := now, passed := s.passed + [s.workers[w].connection],
                                   limiters := s.limiters[i := R.Attempt(s.limiters[i], now)]);
    }
  }

  /** Until every worker is done some step is possible. */
  lemma NeverStuck(c: Config, s: State) returns (s': State)
    requires c.Valid() && Fits(c, s) && !AllDone(s)
    ensures Step(c, s, s')
  {
    var w: nat :| w < |s.workers| && s.workers[w].pc != Merged && s.workers[w].pc != Dead;
    match s.workers[w].pc {
      case Ready =>
        if c.durationBased {
          s' := SetPc(s, w, Exited);
          assert ClockStep(c, s, s', w);
        } else {
          var claim := B.ClaimTicket(c.target, s.budget);
          s' := (if claim.ok then Ticket(s, w) else SetPc(s, w, Exited)).(budget := claim.budget);
          assert ClaimStep(c, s, s', w);
        }
      case Claimed =>
        s' := CanPass(c, s, w);
      case Admitted =>
        s' := SetPc(s, w, Issuing);
        assert SelectKeyless(c, s, s', w);
      case Issuing =>
        var r := M.CommandResult(M.Name("PING"), true, 0);
        s' := s.(workers := s.workers[w := s.workers[w].(pc := Ready, results := s.workers[w].results + [r])],
                 log := s.log + [Recorded(s.workers[w].ticket, r)]);
        assert RecordStep(c, s, s', w, r);
      case Exited =>
        s' := SetPc(s, w, Merged).(merged := s.merged + [M.Worker(s.workers[w].results, Some(0), Some(0))]);
        assert MergeStep(c, s, s', w, 0, 0);
    }
    assert WorkerStep(c, s, s', w);
  }

  /** Every run of a request-based phase can be continued until all workers are done. */
  lemma {:induction false} RunsComplete(c: Config, run: seq<State>) returns (whole: seq<State>)
    requires c.Valid() && IsRun(c, run) && !c.durationBased
    ensures run <= whole && IsRun(c, whole) && AllDone(whole[|whole| - 1])
    decreases 4 * c.target + 2 * c.WorkerCount() + 2 - |run|
  {
    RunsAreBounded(c, run);
    var s := run[|run| - 1];
    if AllDone(s) {
      whole := run;
    } else {
      RunFits(c, run);
      var s' := NeverStuck(c, s);
      ExtendRun(c, run, s');
      whole := RunsComplete(c, run + [s']);
    }
  }

  lemma ExtendRun(c: Config, run: seq<State>, s: State)
    requires IsRun(c, run) && Step(c, run[|run| - 1], s)
    ensures IsRun(c, run + [s])
  {
    var r := run + [s];
    forall i | 0 <= i < |r| - 1
      ensures Step(c, r[i], r[i + 1])
    {
      assert i < |run| - 1 ==> Step(c, run[i], run[i + 1]);
    }
  }

  // ----- what can happen -----------------------------------------------------------

  /** Every configuration with workers has an initial state, with limiters created at any time. */
  lemma SomeRunStarts(c: Config, budget: B.Budget, origin: int) returns (s: State)
    requires c.Valid()
    requires budget in {B.GoCountdown(c.target), B.RustCountdown(c.target), B.NodeRemaining(c.target),
                        B.PythonCounter(0)}
    ensures IsRun(c, [s]) && s.budget == budget && s.issued == 0 && |s.workers| == c.connections * c.depth
    ensures forall w :: 0 <= w < |s.workers| ==> s.workers[w] == Worker(w / c.depth, Ready, 0, [])
    ensures |s.limiters| == |c.intervals|
    ensures forall i :: 0 <= i < |s.limiters| ==> s.limiters[i] == R.Schedule(origin, c.intervals[i], origin, [])
  {
    MulAtLeast(c.connections, c.depth);
    var workers := FreshWorkers(c);
    s := State(budget, 0, origin,
               seq(|c.intervals|, i requires 0 <= i < |c.intervals| => R.Created(origin, c.intervals[i])),
               [], 0, [], seq(c.connections, i requires 0 <= i < c.connections => c.InitialRng(i)),
               seq(c.connections, _ => []), workers,
               [], [], [], [], 0, false);
  }

  /** Each connection has depth workers. */
  lemma FreshWorkers(c: Config) returns (workers: seq<Worker>)
    requires c.Valid()
    ensures |workers| == c.connections * c.depth
    ensures forall w :: 0 <= w < |workers| ==>
              w / c.depth < c.connections && workers[w] == Worker(w / c.depth, Ready, 0, [])
  {
    workers := seq(c.connections * c.depth,
                   w requires 0 <= w => DivBounds(w, c.depth); Worker(w / c.depth, Ready, 0, []));
    forall w: nat | w < |workers|
      ensures w / c.depth < c.connections
    {
      DivBelow(w, c.connections, c.depth);
    }
  }

  lemma Possible(c: Config, s: State, s': State, w: nat)
    requires w < |s.workers| && WorkerStep(c, s, s', w)
    ensures Step(c, s, s')
  {
  }

  /** An interrupt can come at any time, and any worker at the top of its loop then leaves it. */
  lemma CanInterrupt(c: Config, s: State, w: nat) returns (s': State, s'': State)
    requires At(s, w, Ready) && !s.interrupted
    ensures s' == s.(interrupted := true) && Step(c, s, s')
    ensures s'' == s'.(workers := s.workers[w := s.workers[w].(pc := Exited)]) && Step(c, s', s'')
  {
    s' := s.(interrupted := true);
    s'' := SetPc(s', w, Exited);
    assert SeeInterrupt(c, s', s'', w);
    Possible(c, s', s'', w);
  }

  /** While the budget is not spent a worker at the top of its loop can take the next ticket. */
  lemma CanClaim(c: Config, s: State, w: nat) returns (s': State)
    requires Inv(c, s) && At(s, w, Ready) && (c.durationBased || s.issued < c.target)
    ensures Step(c, s, s') && s'.issued == s.issued + 1
    ensures s'.workers == s.workers[w := s.workers[w].(pc := Claimed, ticket := s.issued)]
  {
    if c.durationBased {
      s' := Ticket(s, w);
      assert ClockStep(c, s, s', w);
    } else {
      B.ClaimDispensesTicket(c.target, s.budget);
      var claim := B.ClaimTicket(c.target, s.budget);
      s' := Ticket(s, w).(budget := claim.budget);
      assert ClaimStep(c, s, s', w);
    }
    Possible(c, s, s', w);
  }

  /** A request in flight can settle with any result. */
  lemma CanRecord(c: Config, s: State, w: nat, r: M.CommandResult) returns (s': State)
    requires At(s, w, Issuing)
    ensures Step(c, s, s') && s'.log == s.log + [Recorded(s.workers[w].ticket, r)]
    ensures s'.workers == s.workers[w := s.workers[w].(pc := Ready, results := s.workers[w].results + [r])]
  {
    s' := s.(workers := s.workers[w := s.workers[w].(pc := Ready, results := s.workers[w].results + [r])],
             log := s.log + [Recorded(s.workers[w].ticket, r)]);
    assert RecordStep(c, s, s', w, r);
    Possible(c, s, s', w);
  }

  /** A request in flight can panic: the worker stops, and whether it keeps its results is the configuration's. */
  lemma CanPanic(c: Config, s: State, w: nat) returns (s': State)
    requires At(s, w, Claimed) || At(s, w, Admitted) || At(s, w, Issuing)
    ensures Step(c, s, s') && s'.lostTickets == s.lostTickets + [s.workers[w].ticket]
    ensures s'.workers == s.workers[w := s.workers[w].(pc := if c.keepsOnPanic then Exited else Dead)]
    ensures s'.dropped == if c.keepsOnPanic then s.dropped else s.dropped + s.workers[w].results
  {
    var lostTickets := s.lostTickets + [s.workers[w].ticket];
    if c.keepsOnPanic {
      s' := SetPc(s, w, Exited).(lost := s.lost + 1, lostTickets := lostTickets);
    } else {
      s' := SetPc(s, w, Dead).(lost := s.lost + 1 + |s.workers[w].results|, lostTickets := lostTickets,
                               dropped := s.dropped + s.workers[w].results);
    }
    assert PanicStep(c, s, s', w);
    Possible(c, s, s', w);
  }

  /** A worker that was let through can draw a key, which is the next of the counter or of its connection. */
  lemma CanDraw(c: Config, s: State, w: nat) returns (s': State)
    requires Inv(c, s) && Fits(c, s) && At(s, w, Admitted)
    ensures Step(c, s, s') && s'.workers == s.workers[w := s.workers[w].(pc := Issuing)]
    ensures c.sequential ==> |s'.drawn| == |s.drawn| + 1
    ensures !c.sequential ==> var i := s.workers[w].connection;
                              i < |s.keysOf| == |s'.keysOf| && |s'.keysOf[i]| == |s.keysOf[i]| + 1
  {
    if c.sequential {
      s' := SetPc(s, w, Issuing).(nextKey := s.nextKey + 1, drawn := s.drawn + [s.nextKey % c.KeyCount()]);
    } else {
      var conn := s.workers[w].connection;
      var d := NextInt(s.rngs[conn], c.KeyBound());
      s' := SetPc(s, w, Issuing)
            .(rngs := s.rngs[conn := d.state], keysOf := s.keysOf[conn := s.keysOf[conn] + [d.value]]);
    }
    assert DrawKey(c, s, s', w);
    Possible(c, s, s', w);
  }

  /** A worker that left its loop can merge its collector. */
  lemma CanMerge(c: Config, s: State, w: nat, start: int, stop: int) returns (s': State)
    requires At(s, w, Exited)
    ensures Step(c, s, s') && s'.merged == s.merged + [M.Worker(s.workers[w].results, Some(start), Some(stop))]
    ensures s'.workers == s.workers[w := s.workers[w].(pc := Merged)]
  {
    s' := SetPc(s, w, Merged).(merged := s.merged + [M.Worker(s.workers[w].results, Some(start), Some(stop))]);
    assert MergeStep(c, s, s', w, start, stop);
    Possible(c, s, s', w);
  }

  // ----- keys ----------------------------------------------------------------------

  lemma {:induction false} SequentialKeyCount(n: nat, keysCount: nat, key: nat)
    requires key < keysCount
    ensures Times(SequentialKeys(n, keysCount), key) == SplitShare(n, keysCount, key)
  {
    if n == 0 {
      DivModUnique(0, keysCount, 0, 0);
    } else {
      SequentialKeyCount(n - 1, keysCount, key);
      ShareStep(n - 1, keysCount, key);
    }
  }

  lemma {:induction false} SequentialKeyAt(n: nat, keysCount: nat, i: nat)
    requires i < n && keysCount > 0
    ensures SequentialKeys(n, keysCount)[i] == i % keysCount
  {
    if i < n - 1 {
      SequentialKeyAt(n - 1, keysCount, i);
    }
  }

  /** In every run the i-th sequential draw is i modulo the key count, so n draws hit each key evenly. */
  lemma SequentialKeysAreEven(c: Config, run: seq<State>, keysCount: nat)
    requires c.Valid() && IsRun(c, run) && keysCount == if c.keysCount <= 0 then 1 else c.keysCount
    ensures var keys := run[|run| - 1].drawn;
            && (forall i :: 0 <= i < |keys| ==> keys[i] == i % keysCount)
            && forall key :: 0 <= key < keysCount ==>
                 Times(keys, key) == |keys| / keysCount + if key < |keys| % keysCount then 1 else 0
  {
    RunInv(c, run);
    var keys := run[|run| - 1].drawn;
    forall i | 0 <= i < |keys|
      ensures keys[i] == i % keysCount
    {
      SequentialKeyAt(|keys|, keysCount, i);
    }
    forall key | 0 <= key < keysCount
      ensures Times(keys, key) == |keys| / keysCount + if key < |keys| % keysCount then 1 else 0
    {
      SequentialKeyCount(|keys|, keysCount, key);
    }
  }

  lemma {:induction false} SameCounter(n: nat, keysCount: nat)
    requires keysCount > 0
    ensures multiset(SequentialKeys(n, keysCount)) == StridedKeys.SharedCounterKeys(n, keysCount)
  {
    if n > 0 {
      SameCounter(n - 1, keysCount);
    }
  }

  /** The keys drawn are those that strided workers are compared with. */
  lemma DrawnFromSharedCounter(c: Config, run: seq<State>, keysCount: nat)
    requires c.Valid() && IsRun(c, run) && keysCount == if c.keysCount <= 0 then 1 else c.keysCount
    ensures var keys := run[|run| - 1].drawn; multiset(keys) == StridedKeys.SharedCounterKeys(|keys|, keysCount)
  {
    RunInv(c, run);
    SameCounter(run[|run| - 1].nextKey, keysCount);
  }

  /**
    In every run the random keys of connection i are the first draws below the key
    count of the stream seeded base + i: the depth and the interleaving decide only
    how many there are. A sequential phase draws none.
   */
  lemma RandomKeysIgnoreDepth(c: Config, run: seq<State>, d: Config, other: seq<State>, keysCount: nat, i: nat)
    requires c.Valid() && IsRun(c, run) && d.Valid() && IsRun(d, other)
    requires c.seedBase == d.seedBase && c.keysCount == d.keysCount && i < c.connections && i < d.connections
    requires keysCount == if c.keysCount <= 0 then 1 else c.keysCount
    ensures |run[|run| - 1].keysOf| > i && |other[|other| - 1].keysOf| > i
    ensures var a, b := run[|run| - 1].keysOf[i], other[|other| - 1].keysOf[i];
            && (a <= b || b <= a)
            && if c.sequential then a == []
               else a == Ports.Stream(Scramble(c.seedBase + i), seq(|a|, _ => keysCount))
  {
    KeysOfConnection(c, run, keysCount, i);
    KeysOfConnection(d, other, keysCount, i);
    if !c.sequential && !d.sequential {
      PrefixesOfOne(Scramble(c.seedBase + i), keysCount, run[|run| - 1].keysOf[i], other[|other| - 1].keysOf[i]);
    }
  }

  lemma KeysOfConnection(c: Config, run: seq<State>, keysCount: nat, i: nat)
    requires c.Valid() && IsRun(c, run) && i < c.connections
    requires keysCount == if c.keysCount <= 0 then 1 else c.keysCount
    ensures |run[|run| - 1].keysOf| > i
    ensures var a := run[|run| - 1].keysOf[i];
            if c.sequential then a == []
            else && a == RandomKeys(Scramble(c.seedBase + i), keysCount, |a|)
                 && a == Ports.Stream(Scramble(c.seedBase + i), seq(|a|, _ => keysCount))
  {
    RunInv(c, run);
    if !c.sequential {
      KeysAreStream(Scramble(c.seedBase + i), keysCount, |run[|run| - 1].keysOf[i]|);
    }
  }

  lemma {:induction false} KeysFromFront(rng: State48, bound: Bound, n: nat)
    ensures var d := NextInt(rng, bound);
            && RngAfter(rng, bound, n + 1) == RngAfter(d.state, bound, n)
            && RandomKeys(rng, bound, n + 1) == [d.value] + RandomKeys(d.state, bound, n)
  {
    if n == 0 {
      assert RngAfter(rng, bound, 0) == rng;
      assert RandomKeys(rng, bound, 0) == [];
    } else {
      KeysFromFront(rng, bound, n - 1);
    }
  }

  lemma {:induction false} KeysAreStream(rng: State48, bound: Bound, n: nat)
    ensures RandomKeys(rng, bound, n) == Ports.Stream(rng, seq(n, _ => bound))
    decreases n
  {
    if n > 0 {
      var d := NextInt(rng, bound);
      KeysFromFront(rng, bound, n - 1);
      KeysAreStream(d.state, bound, n - 1);
      StreamFromFront(rng, bound, n, d);
    }
  }

  lemma StreamFromFront(rng: State48, bound: Bound, n: nat, d: Drawn)
    requires n > 0 && d == NextInt(rng, bound)
    ensures Ports.Stream(rng, seq(n, _ => bound)) == [d.value] + Ports.Stream(d.state, seq(n - 1, _ => bound))
  {
    var bounds := seq(n, _ => bound);
    assert bounds[0] == bound && bounds[1..] == seq(n - 1, _ => bound);
  }

  lemma PrefixesOfOne(rng: State48, bound: Bound, a: seq<int>, b: seq<int>)
    requires a == RandomKeys(rng, bound, |a|) && b == RandomKeys(rng, bound, |b|)
    ensures a <= b || b <= a
  {
    if |a| <= |b| {
      RandomKeysPrefix(rng, bound, |a|, |b|);
    } else {
      RandomKeysPrefix(rng, bound, |b|, |a|);
    }
  }

  lemma {:induction false} RandomKeysPrefix(rng: State48, bound: Bound, m: nat, n: nat)
    requires m <= n
    ensures RandomKeys(rng, bound, m) <= RandomKeys(rng, bound, n)
  {
    if m < n {
      RandomKeysPrefix(rng, bound, m, n - 1);
    }
  }
}
