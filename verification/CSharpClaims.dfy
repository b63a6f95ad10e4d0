/**
  The C# engine's claims: increment the shared count, and undo the increment when
  the claimed number is past the target. Increment and undo are separate atomic
  steps of concurrent workers.
 */
module CSharpClaims {
  import opened Sums

  datatype Config = Config(workers: nat, depth: nat, target: nat) {
    predicate Valid() {
      workers > 0 && target > 0
    }

    predicate Pipelined() {
      depth > 1
    }
  }

  datatype Pc =
    | SyncTop                                // RunSyncLoop, top of the loop
    | SyncHolding(claimed: int)              // after its increment
    | SyncRunning                            // command in flight
    | Filling(i: nat)                        // RunPipelinedLoop, fill iteration i
    | FillHolding(i: nat, claimed: int)
    | Draining                               // top of the while loop
    | Settled                                // one completion recorded, about to claim again
    | RefillHolding(claimed: int)
    | Done

  /** The tickets of the commands in flight; a ticket is the number of its claim. */
  datatype Worker = Worker(pc: Pc, pending: seq<int>)

  datatype State = State(
    count: int,              // RequestCount
    claims: nat,             // claims that succeeded
    recorded: seq<int>,      // tickets of the recorded results, in order
    dropped: seq<int>,       // tickets abandoned when the run was stopped
    running: bool,
    workers: seq<Worker>)

  function Holds(w: Worker): bool {
    w.pc.SyncHolding? || w.pc.FillHolding? || w.pc.RefillHolding?
  }

  /** Tickets of a worker: commands in flight, and a successful claim not yet submitted. */
  function TicketsOf(c: Config, w: Worker): seq<int> {
    w.pending + if Holds(w) && w.pc.claimed < c.target then [w.pc.claimed] else []
  }

  function Tickets(c: Config, w: Worker): nat {
    |TicketsOf(c, w)|
  }

  function MustUndo(c: Config, w: Worker): nat {
    if Holds(w) && w.pc.claimed >= c.target then 1 else 0
  }

  function TotalTickets(c: Config, s: State): nat {
    Sum(s.workers, w => Tickets(c, w))
  }

  function PendingUndos(c: Config, s: State): nat {
    Sum(s.workers, w => MustUndo(c, w))
  }

  // ----- steps -------------------------------------------------------------------

  predicate Init(c: Config, s: State) {
    && s.count == 0 && s.claims == 0 && s.recorded == [] && s.dropped == [] && s.running
    && |s.workers| == c.workers
    && forall w :: 0 <= w < c.workers ==> s.workers[w] == Worker(if c.Pipelined() then Filling(0) else SyncTop, [])
  }

  function Put(s: State, w: nat, worker: Worker): State
    requires w < |s.workers|
  {
    s.(workers := s.workers[w := worker])
  }

  /** Interlocked.Increment, keeping the value before it. */
  predicate Increment(c: Config, s: State, s': State, w: nat)
    requires w < |s.workers|
  {
    var me := s.workers[w];
    var next :=
      match me.pc
      case SyncTop => SyncHolding(s.count)
      case Filling(i) => if i < c.depth then FillHolding(i, s.count) else Done
      case Settled => RefillHolding(s.count)
      case _ => Done;
    && next != Done
    && s' == Put(s, w, me.(pc := next))
             .(count := s.count + 1, claims := s.claims + if s.count < c.target then 1 else 0)
  }

  /** The claim is within the target: submit the command. */
  predicate Submit(c: Config, s: State, s': State, w: nat)
    requires w < |s.workers|
  {
    var me := s.workers[w];
    && Holds(me) && me.pc.claimed < c.target
    && var next :=
         match me.pc
         case FillHolding(i, _) => Filling(i + 1)
         case RefillHolding(_) => Draining
         case _ => SyncRunning;
       s' == Put(s, w, Worker(next, me.pending + [me.pc.claimed]))
  }

  /** The claim is past the target: Interlocked.Decrement. The sync loop ends, the pipelined loop drains. */
  predicate Undo(c: Config, s: State, s': State, w: nat)
    requires w < |s.workers|
  {
    var me := s.workers[w];
    && Holds(me) && me.pc.claimed >= c.target
    && s' == Put(s, w, me.(pc := if me.pc.SyncHolding? then Done else Draining)).(count := s.count - 1)
  }

  /** One of the commands in flight settles and is recorded, also when the run was stopped during the wait. */
  predicate CompleteOne(c: Config, s: State, s': State, w: nat, k: nat)
    requires w < |s.workers|
  {
    var me := s.workers[w];
    && (me.pc == SyncRunning || me.pc == Draining) && k < |me.pending|
    && s' == Put(s, w, Worker(if me.pc == SyncRunning then SyncTop else Settled, me.pending[..k] + me.pending[k + 1..]))
             .(recorded := s.recorded + [me.pending[k]])
  }

  ghost predicate Complete(c: Config, s: State, s': State, w: nat)
    requires w < |s.workers|
  {
    exists k: nat :: CompleteOne(c, s, s', w, k)
  }

  /** Loop exits without a claim: the fill loop is complete or stopped, the refill is skipped. */
  predicate Leave(c: Config, s: State, s': State, w: nat)
    requires w < |s.workers|
  {
    var me := s.workers[w];
    && ((me.pc.Filling? && (me.pc.i >= c.depth || !s.running)) || (me.pc == Settled && !s.running))
    && s' == Put(s, w, me.(pc := Draining))
  }

  /** The worker's loop ends: nothing is pending, or the run was stopped. */
  predicate Finish(c: Config, s: State, s': State, w: nat)
    requires w < |s.workers|
  {
    var me := s.workers[w];
    && ((me.pc == Draining && (me.pending == [] || !s.running)) || (me.pc == SyncTop && !s.running))
    && s' == Put(s, w, Worker(Done, [])).(dropped := s.dropped + me.pending)
  }

  /** An exception: the worker stops, clears the running flag and abandons its tickets. */
  predicate Fail(c: Config, s: State, s': State, w: nat)
    requires w < |s.workers|
  {
    var me := s.workers[w];
    && me.pc != Done && MustUndo(c, me) == 0
    && s' == Put(s, w, Worker(Done, [])).(running := false, dropped := s.dropped + TicketsOf(c, me))
  }

  ghost predicate WorkerStep(c: Config, s: State, s': State, w: nat)
    requires w < |s.workers|
  {
    || Increment(c, s, s', w) || Submit(c, s, s', w) || Undo(c, s, s', w) || Complete(c, s, s', w)
    || Leave(c, s, s', w) || Finish(c, s, s', w) || Fail(c, s, s', w)
  }

  ghost predicate Step(c: Config, s: State, s': State) {
    exists w: nat :: w < |s.workers| && WorkerStep(c, s, s', w)
  }

  // ----- the invariant -------------------------------------------------------------

  /** The shape of each worker: at most depth commands in flight, none while a fill slot is short of them. */
  predicate Shape(c: Config, w: Worker) {
    var depth := if c.Pipelined() then c.depth else 1;
    match w.pc
    case SyncTop | SyncHolding(_) => !c.Pipelined() && w.pending == []
    case SyncRunning => !c.Pipelined() && |w.pending| == 1
    case Filling(i) => c.Pipelined() && i <= depth && |w.pending| == i
    case FillHolding(i, _) => c.Pipelined() && i < depth && |w.pending| == i
    case Draining => c.Pipelined() && |w.pending| <= depth
    case Settled | RefillHolding(_) => c.Pipelined() && |w.pending| < depth
    case Done => w.pending == []
  }

  /** Workers that have run out of work. */
  predicate Idle(w: Worker) {
    (w.pc == Draining && w.pending == []) || w.pc == Done
  }

  predicate Inv(c: Config, s: State) {
    && |s.workers| == c.workers
    && (forall w :: 0 <= w < c.workers ==> Shape(c, s.workers[w]))
    && s.claims <= c.target
    && s.count == s.claims + PendingUndos(c, s)
    && (PendingUndos(c, s) > 0 ==> s.claims == c.target)
    && s.claims == |s.recorded| + TotalTickets(c, s) + |s.dropped|
    && (s.running ==> s.dropped == [])
    && (s.running && (exists w :: 0 <= w < c.workers && Idle(s.workers[w])) ==> s.claims == c.target)
  }

  predicate AllDone(s: State) {
    forall w :: 0 <= w < |s.workers| ==> s.workers[w].pc == Done
  }

  lemma InitInv(c: Config, s: State)
    requires c.Valid() && Init(c, s)
    ensures Inv(c, s)
  {
    SumZero(s.workers, w => Tickets(c, w));
    SumZero(s.workers, w => MustUndo(c, w));
  }

  lemma Moved(c: Config, s: State, w: nat, worker: Worker)
    requires w < |s.workers|
    ensures var s' := Put(s, w, worker);
            && TotalTickets(c, s') + Tickets(c, s.workers[w]) == TotalTickets(c, s) + Tickets(c, worker)
            && PendingUndos(c, s') + MustUndo(c, s.workers[w]) == PendingUndos(c, s) + MustUndo(c, worker)
            && MustUndo(c, s.workers[w]) <= PendingUndos(c, s)
  {
    SumUpdate(s.workers, w, worker, x => Tickets(c, x));
    SumUpdate(s.workers, w, worker, x => MustUndo(c, x));
    SumAtLeast(s.workers, x => MustUndo(c, x), w);
  }

  /** A claim succeeds exactly while fewer than target have, and its number is the count of earlier successes. */
  lemma ClaimsAreTickets(c: Config, s: State)
    requires Inv(c, s)
    ensures s.count < c.target <==> s.claims < c.target
    ensures s.count < c.target ==> s.count == s.claims
  {
  }

  lemma IncrementInv(c: Config, s: State, s': State, w: nat)
    requires Inv(c, s) && w < |s.workers| && Increment(c, s, s', w)
    ensures Inv(c, s')
  {
    Moved(c, s, w, s'.workers[w]);
    ClaimsAreTickets(c, s);
  }

  lemma SubmitInv(c: Config, s: State, s': State, w: nat)
    requires Inv(c, s) && w < |s.workers| && Submit(c, s, s', w)
    ensures Inv(c, s')
  {
    Moved(c, s, w, s'.workers[w]);
  }

  lemma UndoInv(c: Config, s: State, s': State, w: nat)
    requires Inv(c, s) && w < |s.workers| && Undo(c, s, s', w)
    ensures Inv(c, s')
  {
    Moved(c, s, w, s'.workers[w]);
  }

  lemma CompleteInv(c: Config, s: State, s': State, w: nat, k: nat)
    requires Inv(c, s) && w < |s.workers| && CompleteOne(c, s, s', w, k)
    ensures Inv(c, s')
  {
    Moved(c, s, w, s'.workers[w]);
  }

  lemma LeaveInv(c: Config, s: State, s': State, w: nat)
    requires Inv(c, s) && w < |s.workers| && Leave(c, s, s', w)
    ensures Inv(c, s')
  {
    Moved(c, s, w, s'.workers[w]);
  }

  lemma FinishInv(c: Config, s: State, s': State, w: nat)
    requires Inv(c, s) && w < |s.workers| && Finish(c, s, s', w)
    ensures Inv(c, s')
  {
    Moved(c, s, w, s'.workers[w]);
  }

  lemma FailInv(c: Config, s: State, s': State, w: nat)
    requires Inv(c, s) && w < |s.workers| && Fail(c, s, s', w)
    ensures Inv(c, s')
  {
    Moved(c, s, w, s'.workers[w]);
  }

  lemma StepInv(c: Config, s: State, s': State)
    requires Inv(c, s) && Step(c, s, s')
    ensures Inv(c, s')
  {
    var w: nat :| w < |s.workers| && WorkerStep(c, s, s', w);
    if Increment(c, s, s', w) {
      IncrementInv(c, s, s', w);
    } else if Submit(c, s, s', w) {
      SubmitInv(c, s, s', w);
    } else if Undo(c, s, s', w) {
      UndoInv(c, s, s', w);
    } else if Complete(c, s, s', w) {
      var k: nat :| CompleteOne(c, s, s', w, k);
      CompleteInv(c, s, s', w, k);
    } else if Leave(c, s, s', w) {
      LeaveInv(c, s, s', w);
    } else if Finish(c, s, s', w) {
      FinishInv(c, s, s', w);
    } else {
      FailInv(c, s, s', w);
    }
  }

  ghost predicate IsRun(c: Config, run: seq<State>) {
    && run != [] && Init(c, run[0])
    && forall i :: 0 <= i < |run| - 1 ==> Step(c, run[i], run[i + 1])
  }

  lemma {:induction false} RunInv(c: Config, run: seq<State>)
    requires c.Valid() && IsRun(c, run)
    ensures Inv(c, run[|run| - 1])
  {
    if |run| == 1 {
      InitInv(c, run[0]);
    } else {
      var n := |run| - 1;
      assert IsRun(c, run[..n]);
      RunInv(c, run[..n]);
      assert Step(c, run[n - 1], run[n - 1 + 1]);
      StepInv(c, run[n - 1], run[n]);
    }
  }

  /**
    In every interleaving: successful claims never exceed the target, the count is
    the successes plus the pending undos, an increment past the target happens only
    once exactly target claims have succeeded, and no connection has more commands
    pending than its depth.
   */
  lemma ClaimsAreExact(c: Config, run: seq<State>)
    requires c.Valid() && IsRun(c, run)
    ensures var s := run[|run| - 1];
            && s.claims <= c.target
            && s.count == s.claims + PendingUndos(c, s)
            && (s.count >= c.target <==> s.claims == c.target)
            && forall w :: 0 <= w < |s.workers| ==> |s.workers[w].pending| <= (if c.Pipelined() then c.depth else 1)
  {
    RunInv(c, run);
  }

  /** A run that ends without a failure has recorded exactly target results and left the count at target. */
  lemma ExactTarget(c: Config, run: seq<State>)
    requires c.Valid() && IsRun(c, run)
    requires var s := run[|run| - 1]; s.running && AllDone(s)
    ensures |run[|run| - 1].recorded| == c.target == run[|run| - 1].count
  {
    var s := run[|run| - 1];
    RunInv(c, run);
    assert Idle(s.workers[0]);
    SumZero(s.workers, w => Tickets(c, w));
    SumZero(s.workers, w => MustUndo(c, w));
  }

  // ----- what becomes of each ticket -----------------------------------------------------

  function Holding(c: Config, ticket: int): Worker -> nat {
    (w: Worker) => Times(TicketsOf(c, w), ticket)
  }

  /** A successful claim is recorded, held or dropped, and once; no other number occurs. */
  predicate TicketOnce(c: Config, s: State, ticket: int) {
    Times(s.recorded, ticket) + Sum(s.workers, Holding(c, ticket)) + Times(s.dropped, ticket)
    == if 0 <= ticket < s.claims then 1 else 0
  }

  lemma TicketBalance(c: Config, s: State, s': State, w: nat, worker: Worker, ticket: int,
                      recorded: nat, dropped: nat, claimed: nat)
    requires w < |s.workers| && s'.workers == s.workers[w := worker] && TicketOnce(c, s, ticket)
    requires Times(s'.recorded, ticket) == Times(s.recorded, ticket) + recorded
    requires Times(s'.dropped, ticket) == Times(s.dropped, ticket) + dropped
    requires (if 0 <= ticket < s'.claims then 1 else 0) == (if 0 <= ticket < s.claims then 1 else 0) + claimed
    requires recorded + dropped + Times(TicketsOf(c, worker), ticket) ==
             Times(TicketsOf(c, s.workers[w]), ticket) + claimed
    ensures TicketOnce(c, s', ticket)
  {
    SumUpdate(s.workers, w, worker, Holding(c, ticket));
  }

  lemma IncrementFrame(c: Config, s: State, s': State, w: nat)
    requires w < |s.workers| && Increment(c, s, s', w)
    ensures |s'.workers| == |s.workers| && s'.workers == s.workers[w := s'.workers[w]]
    ensures !Holds(s.workers[w]) && s'.recorded == s.recorded && s'.dropped == s.dropped
    ensures s'.claims == s.claims + if s.count < c.target then 1 else 0
    ensures TicketsOf(c, s'.workers[w]) == s.workers[w].pending + if s.count < c.target then [s.count] else []
  {
  }

  lemma IncrementKeepsTicket(c: Config, s: State, s': State, w: nat, ticket: int)
    requires Inv(c, s) && TicketOnce(c, s, ticket) && w < |s.workers| && Increment(c, s, s', w)
    ensures TicketOnce(c, s', ticket)
  {
    ClaimsAreTickets(c, s);
    IncrementFrame(c, s, s', w);
    var me, worker := s.workers[w], s'.workers[w];
    var claimed := if s.count < c.target then [s.count] else [];
    NoneHeld(c, me);
    TimesAppend(me.pending, claimed, ticket);
    TimesOne(s.count, ticket);
    TicketBalance(c, s, s', w, worker, ticket, 0, 0, Times(claimed, ticket));
  }

  lemma TimesOne(x: int, y: int)
    ensures Times([x], y) == if x == y then 1 else 0
  {
    assert [x][..0] == [];
  }

  lemma SameTickets(c: Config, s: State, s': State, w: nat, ticket: int)
    requires TicketOnce(c, s, ticket) && w < |s.workers|
    requires Submit(c, s, s', w) || Undo(c, s, s', w) || Leave(c, s, s', w)
    ensures TicketOnce(c, s', ticket)
  {
    assert TicketsOf(c, s'.workers[w]) == TicketsOf(c, s.workers[w]);
    TicketBalance(c, s, s', w, s'.workers[w], ticket, 0, 0, 0);
  }

  lemma TimesWithout(xs: seq<int>, k: nat, x: int)
    requires k < |xs|
    ensures Times(xs, x) == Times(xs[..k] + xs[k + 1..], x) + Times([xs[k]], x)
  {
    var before, one, after := xs[..k], [xs[k]], xs[k + 1..];
    assert xs == before + one + after;
    TimesAppend(before + one, after, x);
    TimesAppend(before, one, x);
    TimesAppend(before, after, x);
  }

  lemma CompleteKeepsTicket(c: Config, s: State, s': State, w: nat, k: nat, ticket: int)
    requires TicketOnce(c, s, ticket) && w < |s.workers| && CompleteOne(c, s, s', w, k)
    ensures TicketOnce(c, s', ticket)
  {
    var pending, worker := s.workers[w].pending, s'.workers[w];
    var one := [pending[k]];
    TimesWithout(pending, k, ticket);
    TimesAppend(s.recorded, one, ticket);
    NoneHeld(c, s.workers[w]);
    NoneHeld(c, worker);
    TicketBalance(c, s, s', w, worker, ticket, Times(one, ticket), 0, 0);
  }

  lemma NoneHeld(c: Config, w: Worker)
    requires !Holds(w)
    ensures TicketsOf(c, w) == w.pending
  {
  }

  lemma StopKeepsTicket(c: Config, s: State, s': State, w: nat, ticket: int)
    requires TicketOnce(c, s, ticket) && w < |s.workers| && (Finish(c, s, s', w) || Fail(c, s, s', w))
    ensures TicketOnce(c, s', ticket)
  {
    var tickets := TicketsOf(c, s.workers[w]);
    assert s'.dropped == s.dropped + tickets && TicketsOf(c, s'.workers[w]) == [];
    TimesAppend(s.dropped, tickets, ticket);
    TicketBalance(c, s, s', w, s'.workers[w], ticket, 0, Times(tickets, ticket), 0);
  }

  lemma StepKeepsTicket(c: Config, s: State, s': State, ticket: int)
    requires Inv(c, s) && TicketOnce(c, s, ticket) && Step(c, s, s')
    ensures TicketOnce(c, s', ticket)
  {
    var w: nat :| w < |s.workers| && WorkerStep(c, s, s', w);
    if Increment(c, s, s', w) {
      IncrementKeepsTicket(c, s, s', w, ticket);
    } else if Complete(c, s, s', w) {
      var k: nat :| CompleteOne(c, s, s', w, k);
      CompleteKeepsTicket(c, s, s', w, k, ticket);
    } else if Finish(c, s, s', w) || Fail(c, s, s', w) {
      StopKeepsTicket(c, s, s', w, ticket);
    } else {
      SameTickets(c, s, s', w, ticket);
    }
  }

  /** In every interleaving each successful claim's number is recorded, held or dropped exactly once. */
  lemma {:induction false} EachTicketOnce(c: Config, run: seq<State>, ticket: int)
    requires c.Valid() && IsRun(c, run)
    ensures TicketOnce(c, run[|run| - 1], ticket)
  {
    var n := |run| - 1;
    if n == 0 {
      SumZero(run[0].workers, Holding(c, ticket));
    } else {
      assert IsRun(c, run[..n]);
      RunInv(c, run[..n]);
      EachTicketOnce(c, run[..n], ticket);
      assert Step(c, run[n - 1], run[n - 1 + 1]);
      StepKeepsTicket(c, run[n - 1], run[n], ticket);
    }
  }

  // ----- every run ends --------------------------------------------------------------

  /** Steps a worker has left, apart from new successful claims. */
  function Weight(c: Config, w: Worker): nat {
    3 * |w.pending| +
    match w.pc
    case Done => 0
    case Draining | SyncRunning => 1
    case SyncTop | Filling(_) | Settled => 3
    case SyncHolding(n) => if n < c.target then 7 else 2
    case FillHolding(_, n) => if n < c.target then 7 else 2
    case RefillHolding(n) => if n < c.target then 7 else 2
  }

  function TotalWeight(c: Config, s: State): nat {
    Sum(s.workers, w => Weight(c, w))
  }

  function Measure(c: Config, s: State): int {
    5 * (c.target - s.claims) + TotalWeight(c, s)
  }

  /** An undo ends its worker's loop or follows a completion, so it cannot go on for ever. */
  lemma StepShrinks(c: Config, s: State, s': State)
    requires Step(c, s, s')
    ensures Measure(c, s') < Measure(c, s)
  {
    var w: nat :| w < |s.workers| && WorkerStep(c, s, s', w);
    WorkerShrinks(c, s, s', w);
    SumUpdate(s.workers, w, s'.workers[w], x => Weight(c, x));
  }

  lemma WorkerShrinks(c: Config, s: State, s': State, w: nat)
    requires w < |s.workers| && WorkerStep(c, s, s', w)
    ensures |s'.workers| == |s.workers| && s'.workers == s.workers[w := s'.workers[w]]
    ensures Weight(c, s'.workers[w]) + 5 * (s.claims - s'.claims) < Weight(c, s.workers[w])
  {
  }

  lemma {:induction false} MeasureFalls(c: Config, run: seq<State>)
    requires IsRun(c, run)
    ensures |run| - 1 + Measure(c, run[|run| - 1]) <= 5 * c.target + 3 * c.workers
  {
    var n := |run| - 1;
    if n == 0 {
      InitialWeight(c, run[0].workers);
    } else {
      assert IsRun(c, run[..n]);
      MeasureFalls(c, run[..n]);
      assert Step(c, run[n - 1], run[n - 1 + 1]);
      StepShrinks(c, run[n - 1], run[n]);
    }
  }

  lemma {:induction false} InitialWeight(c: Config, ws: seq<Worker>)
    requires forall w :: 0 <= w < |ws| ==> ws[w].pending == [] && (ws[w].pc == SyncTop || ws[w].pc == Filling(0))
    ensures Sum(ws, w => Weight(c, w)) == 3 * |ws|
  {
    if ws != [] {
      InitialWeight(c, ws[..|ws| - 1]);
    }
  }

  /** No run has more than 5 target + 3 workers steps, failures and stops included. */
  lemma RunsAreBounded(c: Config, run: seq<State>)
    requires c.Valid() && IsRun(c, run)
    ensures |run| - 1 <= 5 * c.target + 3 * c.workers
  {
    RunInv(c, run);
    MeasureFalls(c, run);
  }

  /** Until every worker is done some step is possible. */
  lemma NeverStuck(c: Config, s: State) returns (s': State)
    requires Inv(c, s) && !AllDone(s)
    ensures Step(c, s, s')
  {
    var w: nat :| w < |s.workers| && s.workers[w].pc != Done;
    var me := s.workers[w];
    assert Shape(c, me);
    s' := NextOf(c, s, w);
    assert WorkerStep(c, s, s', w);
  }

  /** Every run can be continued until all workers are done. */
  lemma {:induction false} RunsComplete(c: Config, run: seq<State>) returns (whole: seq<State>)
    requires c.Valid() && IsRun(c, run)
    ensures run <= whole && IsRun(c, whole)
    ensures AllDone(whole[|whole| - 1])
    decreases 5 * c.target + 3 * c.workers + 1 - |run|
  {
    RunsAreBounded(c, run);
    var s := run[|run| - 1];
    if AllDone(s) {
      whole := run;
    } else {
      RunInv(c, run);
      var s' := NeverStuck(c, s);
      ExtendRun(c, run, s');
      whole := RunsComplete(c, run + [s']);
    }
  }

  lemma ExtendRun(c: Config, run: seq<State>, s: State)
    requires IsRun(c, run) && Step(c, run[|run| - 1], s)
    ensures IsRun(c, run + [s])
  {
    var r := run + [s];
    forall i | 0 <= i < |r| - 1
      ensures Step(c, r[i], r[i + 1])
    {
      assert i < |run| - 1 ==> Step(c, run[i], run[i + 1]);
    }
  }

  /** The oldest command in flight settles. */
  function Settle(s: State, w: nat, pc: Pc): State
    requires w < |s.workers| && s.workers[w].pending != []
  {
    var pending := s.workers[w].pending;
    Put(s, w, Worker(pc, pending[..0] + pending[0 + 1..])).(recorded := s.recorded + [pending[0]])
  }

  lemma NextOf(c: Config, s: State, w: nat) returns (s': State)
    requires w < |s.workers| && s.workers[w].pc != Done && Shape(c, s.workers[w])
    ensures WorkerStep(c, s, s', w)
  {
    var me := s.workers[w];
    var claimed := s.(count := s.count + 1, claims := s.claims + if s.count < c.target then 1 else 0);
    match me.pc {
      case SyncTop => s' := Put(claimed, w, me.(pc := SyncHolding(s.count)));
      case Settled => s' := Put(claimed, w, me.(pc := RefillHolding(s.count)));
      case Filling(i) =>
        s' := if i < c.depth then Put(claimed, w, me.(pc := FillHolding(i, s.count)))
              else Put(s, w, me.(pc := Draining));
      case SyncRunning =>
        s' := Settle(s, w, SyncTop);
        assert CompleteOne(c, s, s', w, 0);
      case Draining =>
        if me.pending != [] {
          s' := Settle(s, w, Settled);
          assert CompleteOne(c, s, s', w, 0);
        } else {
          s' := Put(s, w, Worker(Done, []));
        }
      case SyncHolding(n) =>
        s' := if n < c.target then Put(s, w, Worker(SyncRunning, me.pending + [n]))
              else Put(s, w, me.(pc := Done)).(count := s.count - 1);
      case FillHolding(i, n) =>
        s' := if n < c.target then Put(s, w, Worker(Filling(i + 1), me.pending + [n]))
              else Put(s, w, me.(pc := Draining)).(count := s.count - 1);
      case RefillHolding(n) =>
        s' := if n < c.target then Put(s, w, Worker(Draining, me.pending + [n]))
              else Put(s, w, me.(pc := Draining)).(count := s.count - 1);
    }
  }

  // ----- what can happen -----------------------------------------------------------

  lemma SomeRunStarts(c: Config) returns (s: State)
    requires c.Valid()
    ensures IsRun(c, [s])
  {
    s := State(0, 0, [], [], true, seq(c.workers, _ => Worker(if c.Pipelined() then Filling(0) else SyncTop, [])));
  }

  /** A worker at the top of its loop increments whatever the count, also past the target. */
  lemma CanIncrement(c: Config, s: State, w: nat) returns (s': State)
    requires w < |s.workers|
    requires var pc := s.workers[w].pc; pc == SyncTop || pc == Settled || (pc.Filling? && pc.i < c.depth)
    ensures Step(c, s, s') && s'.count == s.count + 1 && Holds(s'.workers[w]) && s'.workers[w].pc.claimed == s.count
  {
    var me := s.workers[w];
    var next := match me.pc
      case SyncTop => SyncHolding(s.count)
      case Filling(i) => FillHolding(i, s.count)
      case _ => RefillHolding(s.count);
    s' := Put(s, w, me.(pc := next))
          .(count := s.count + 1, claims := s.claims + if s.count < c.target then 1 else 0);
    assert Increment(c, s, s', w);
    assert WorkerStep(c, s, s', w);
  }

  /** Any of the commands in flight can be the next to settle. */
  lemma CanSettle(c: Config, s: State, w: nat, k: nat) returns (s': State)
    requires w < |s.workers| && k < |s.workers[w].pending|
    requires s.workers[w].pc == SyncRunning || s.workers[w].pc == Draining
    ensures Step(c, s, s') && s'.recorded == s.recorded + [s.workers[w].pending[k]]
    ensures s'.workers[w].pending == s.workers[w].pending[..k] + s.workers[w].pending[k + 1..]
  {
    var me := s.workers[w];
    s' := Put(s, w, Worker(if me.pc == SyncRunning then SyncTop else Settled, me.pending[..k] + me.pending[k + 1..]))
          .(recorded := s.recorded + [me.pending[k]]);
    assert CompleteOne(c, s, s', w, k);
    assert WorkerStep(c, s, s', w);
  }

  /** A worker that is not about to undo can fail: it stops the run and drops what it had in hand. */
  lemma CanFail(c: Config, s: State, w: nat) returns (s': State)
    requires w < |s.workers| && s.workers[w].pc != Done
    requires Holds(s.workers[w]) ==> s.workers[w].pc.claimed < c.target
    ensures Step(c, s, s') && !s'.running && s'.workers[w] == Worker(Done, []) && s'.recorded == s.recorded
    ensures s'.dropped == s.dropped + s.workers[w].pending
                          + if Holds(s.workers[w]) then [s.workers[w].pc.claimed] else []
  {
    var me := s.workers[w];
    s' := Put(s, w, Worker(Done, [])).(running := false, dropped := s.dropped + TicketsOf(c, me));
    assert s'.dropped == s.dropped + me.pending + if Holds(me) then [me.pc.claimed] else [];
    assert Fail(c, s, s', w);
    assert WorkerStep(c, s, s', w);
  }

  /** Once the run is stopped, a worker at the top of either loop ends, with nothing more recorded. */
  lemma CanStop(c: Config, s: State, w: nat) returns (s': State)
    requires w < |s.workers| && !s.running && (s.workers[w].pc == SyncTop || s.workers[w].pc == Draining)
    ensures Step(c, s, s') && s'.workers[w] == Worker(Done, []) && s'.recorded == s.recorded
    ensures s'.dropped == s.dropped + s.workers[w].pending
  {
    s' := Put(s, w, Worker(Done, [])).(dropped := s.dropped + s.workers[w].pending);
    assert Finish(c, s, s', w);
    assert WorkerStep(c, s, s', w);
  }

  /** One that is filling its pipeline or about to refill it goes on to drain, without a further claim. */
  lemma CanLeave(c: Config, s: State, w: nat) returns (s': State)
    requires w < |s.workers| && !s.running && (s.workers[w].pc.Filling? || s.workers[w].pc == Settled)
    ensures Step(c, s, s') && s' == s.(workers := s.workers[w := s.workers[w].(pc := Draining)])
  {
    s' := Put(s, w, s.workers[w].(pc := Draining));
    assert Leave(c, s, s', w);
    assert WorkerStep(c, s, s', w);
  }
}
