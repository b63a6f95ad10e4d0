/**
  The request budgets of the engines. Each language writes its own claim test;
  every one of them dispenses tickets 1 .. target and then refuses.
 */
module Budget {

  datatype Budget =
    | GoCountdown(remaining: int)
    | RustCountdown(remaining: int)
    | NodeRemaining(remaining: int)
    | PythonCounter(next: int)

  datatype Claimed = Claimed(ok: bool, budget: Budget)

  /** One atomic claim. */
  function ClaimTicket(target: nat, b: Budget): Claimed {
    match b
    case GoCountdown(remaining) =>
      // remaining.Add(-1) < 0 refuses
      var after := remaining - 1;
      Claimed(!(after < 0), GoCountdown(after))
    case RustCountdown(remaining) =>
      // remaining.fetch_sub(1) <= 0 refuses
      Claimed(!(remaining <= 0), RustCountdown(remaining - 1))
    case NodeRemaining(remaining) =>
      if remaining <= 0 then Claimed(false, b) else Claimed(true, NodeRemaining(remaining - 1))
    case PythonCounter(next) =>
      // next_value() >= target refuses
      Claimed(!(next >= target), PythonCounter(next + 1))
  }

  predicate IsFresh(target: nat, b: Budget) {
    match b
    case PythonCounter(next) => next == 0
    case _ => b.remaining == target
  }

  predicate Valid(target: nat, b: Budget) {
    match b
    case PythonCounter(next) => next >= 0
    case NodeRemaining(remaining) => 0 <= remaining <= target
    case _ => b.remaining <= target
  }

  /** Tickets handed out so far. */
  function Issued(target: nat, b: Budget): (n: nat)
    requires Valid(target, b)
    ensures n <= target
  {
    match b
    case PythonCounter(next) => if next <= target then next else target
    case _ => if b.remaining >= 0 then target - b.remaining else target
  }

  /** How far refused claims have pushed the counter past its end. */
  function Overshoot(target: nat, b: Budget): nat {
    match b
    case PythonCounter(next) => if next <= target then 0 else next - target
    case _ => if b.remaining >= 0 then 0 else -b.remaining
  }

  /** Every claim is one step of the ticket dispenser; a refusal moves the counter by at most one. */
  lemma ClaimDispensesTicket(target: nat, b: Budget)
    requires Valid(target, b)
    ensures var c := ClaimTicket(target, b);
            && Valid(target, c.budget)
            && (c.ok <==> Issued(target, b) < target)
            && Issued(target, c.budget) == Issued(target, b) + (if c.ok then 1 else 0)
            && Overshoot(target, c.budget) <= Overshoot(target, b) + (if c.ok then 0 else 1)
  {
  }

  function ClaimTimes(target: nat, b: Budget, n: nat): Budget {
    if n == 0 then b else ClaimTicket(target, ClaimTimes(target, b, n - 1)).budget
  }

  /** After n claims, in whatever language, min(n, target) of them have succeeded. */
  lemma {:induction false} ClaimsSucceedUpToTarget(target: nat, b: Budget, n: nat)
    requires IsFresh(target, b)
    ensures Valid(target, ClaimTimes(target, b, n))
    ensures Issued(target, ClaimTimes(target, b, n)) == if n <= target then n else target
    ensures ClaimTicket(target, ClaimTimes(target, b, n)).ok <==> n < target
  {
    if n > 0 {
      ClaimsSucceedUpToTarget(target, b, n - 1);
      ClaimDispensesTicket(target, ClaimTimes(target, b, n - 1));
    }
    ClaimDispensesTicket(target, ClaimTimes(target, b, n));
  }

  /** Node's budget object: reads and writes with no await in between. */
  class RequestBudget {
    const total: nat
    var remaining: int

    constructor (total: nat)
      ensures this.total == total && IsFresh(total, NodeRemaining(remaining))
    {
      this.total := total;
      remaining := total;
    }

    method Claim() returns (ok: bool)
      requires Valid(total, NodeRemaining(remaining))
      modifies this
      ensures Valid(total, NodeRemaining(remaining))
      ensures Claimed(ok, NodeRemaining(remaining)) == ClaimTicket(total, NodeRemaining(old(remaining)))
      ensures ok <==> Issued(total, NodeRemaining(old(remaining))) < total
    {
      if remaining <= 0 {
        return false;
      }
      remaining := remaining - 1;
      return true;
    }
  }
}
