/** Splitting a total over workers, and the number of workers that take part. */
module Sharing {
  import opened Arithmetic

  /** The first total % workers workers get one extra. */
  function SplitShare(total: nat, workers: int, index: nat): nat {
    if workers <= 0 then 0
    else total / workers + if index < total % workers then 1 else 0
  }

  /** Go: with a limit below the connection count only that many connections run. */
  function ActiveConnections(limit: int, workers: int): int {
    if limit > 0 && limit < workers then (if limit < 1 then 1 else limit) else workers
  }

  /** PHP: the same number by max and min. */
  function ActiveWorkers(limit: int, workers: int): int {
    if limit > 0 then
      var least := if workers < limit then workers else limit;
      if least > 1 then least else 1
    else workers
  }

  /** Both engines activate as many workers as the limit, at most all of them; all without a limit. */
  lemma ActiveCount(limit: int, workers: int)
    requires workers > 0
    ensures ActiveConnections(limit, workers) == ActiveWorkers(limit, workers)
    ensures limit <= 0 ==> ActiveWorkers(limit, workers) == workers
    ensures 0 < limit <= workers ==> ActiveWorkers(limit, workers) == limit
    ensures limit > workers ==> ActiveWorkers(limit, workers) == workers
  {
  }

  /** The sum of the shares of workers 0 .. n-1. */
  function SumShares(total: nat, workers: int, n: nat): nat {
    if n == 0 then 0 else SumShares(total, workers, n - 1) + SplitShare(total, workers, n - 1)
  }

  lemma {:induction false} SharesBelow(total: nat, workers: nat, n: nat)
    requires workers > 0
    ensures SumShares(total, workers, n) == n * (total / workers) + if n < total % workers then n else total % workers
  {
    if n > 0 {
      SharesBelow(total, workers, n - 1);
      var base := total / workers;
      assert n * base == (n - 1) * base + base;
    }
  }

  /** The shares sum exactly to the total. */
  lemma SharesSumToTotal(total: nat, workers: nat)
    requires workers > 0
    ensures SumShares(total, workers, workers) == total
  {
    SharesBelow(total, workers, workers);
  }

  /** One more request goes to worker total % workers, as its request number total / workers. */
  lemma ShareStep(total: nat, workers: nat, i: nat)
    requires i < workers
    ensures SplitShare(total + 1, workers, i) == SplitShare(total, workers, i) + if i == total % workers then 1 else 0
    ensures total == total % workers + total / workers * workers
    ensures SplitShare(total, workers, total % workers) == total / workers
  {
    var q, r := total / workers, total % workers;
    if r + 1 < workers {
      DivModUnique(total + 1, workers, q, r + 1);
    } else {
      NextBlock(workers, q);
      DivModUnique(total + 1, workers, q + 1, 0);
    }
  }

  /** Earlier workers get as much as later ones, or one more. */
  lemma SharesAreEven(total: nat, workers: nat, i: nat, j: nat)
    requires i <= j < workers
    ensures SplitShare(total, workers, j) <= SplitShare(total, workers, i) <= SplitShare(total, workers, j) + 1
  {
  }

  lemma NoWorkersNoShare(total: nat, workers: int, i: nat)
    requires workers <= 0
    ensures SplitShare(total, workers, i) == 0
  {
  }

  lemma NextBlock(w: int, q: int)
    ensures w * (q + 1) == w * q + w
  {
  }

  lemma {:induction false} OnesBelow(limit: nat, workers: nat, n: nat)
    requires limit < workers && n <= limit
    ensures SumShares(limit, workers, n) == n
  {
    if n > 0 {
      OnesBelow(limit, workers, n - 1);
      DivModUnique(limit, workers, 0, limit);
    }
  }

  /**
    Rate limits: both engines activate the same workers. Go splits the limit over
    all connections, PHP over the active ones; over the active workers both sum to
    the limit, and every active worker gets a positive share.
   */
  lemma ActiveSharesSumToLimit(limit: nat, workers: nat)
    requires limit > 0 && workers > 0
    ensures ActiveConnections(limit, workers) == ActiveWorkers(limit, workers) <= workers
    ensures var active := ActiveWorkers(limit, workers);
            && SumShares(limit, workers, active) == limit
            && SumShares(limit, active, active) == limit
            && forall i: nat :: i < active ==> SplitShare(limit, workers, i) == SplitShare(limit, active, i) > 0
  {
    var active := ActiveWorkers(limit, workers);
    SharesSumToTotal(limit, active);
    if limit < workers {
      OnesBelow(limit, workers, limit);
      DivModUnique(limit, workers, 0, limit);
      DivModUnique(limit, limit, 1, 0);
    } else {
      DivMonotone(workers, limit, workers);
      DivModUnique(workers, workers, 1, 0);
    }
  }
}
