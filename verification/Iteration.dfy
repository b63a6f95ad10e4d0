/** Iterating a function, and the period of a value that half a period takes to another one and back. */
module Iteration {
  import opened Arithmetic

  function Iterate<T>(f: T -> T, x: T, n: nat): T {
    if n == 0 then x else Iterate(f, f(x), n - 1)
  }

  lemma {:induction false} IterateAdd<T>(f: T -> T, x: T, a: nat, b: nat)
    ensures Iterate(f, x, a + b) == Iterate(f, Iterate(f, x, a), b)
    decreases a
  {
    if a > 0 {
      IterateAdd(f, f(x), a - 1, b);
    }
  }

  lemma OneMoreTurn(n: nat, m: nat)
    requires m > 0
    ensures (m - 1) * n >= 0 && m * n == n + (m - 1) * n
  {
  }

  /** m half periods end where they began, or at the other value, by the parity of m. */
  lemma {:induction false} HalfPeriods<T>(f: T -> T, x: T, y: T, half: nat, m: nat)
    requires Iterate(f, x, half) == y && Iterate(f, y, half) == x
    ensures Iterate(f, x, m * half) == if m % 2 == 0 then x else y
    decreases m
  {
    if m > 0 {
      OneMoreTurn(half, m);
      IterateAdd(f, x, half, (m - 1) * half);
      HalfPeriods(f, y, x, half, m - 1);
    }
  }

  lemma {:induction false} RepeatedCycle<T>(f: T -> T, x: T, n: nat, t: nat)
    requires Iterate(f, x, n) == x
    ensures Iterate(f, x, t * n) == x
    decreases t
  {
    if t > 0 {
      OneMoreTurn(n, t);
      IterateAdd(f, x, n, (t - 1) * n);
      RepeatedCycle(f, x, n, t - 1);
    }
  }

  lemma {:induction false} OddPart(n: nat) returns (j: nat, m: nat)
    requires n > 0
    ensures n == Pow2(j) * m && m % 2 == 1
  {
    if n % 2 == 1 {
      j, m := 0, n;
    } else {
      j, m := OddPart(n / 2);
      assert n == 2 * Pow2(j) * m;
      j := j + 1;
    }
  }

  lemma MultipleHasNoRemainder(p: int, a: int, m: int)
    requires p > 0
    ensures (p * a * m) % p == 0
  {
    assert p * a * m == p * (a * m);
    DivModUnique(p * a * m, p, a * m, 0);
  }

  lemma Rearrange(a: int, t: int, m: int)
    ensures t * (a * m) == m * (a * t)
  {
  }

  /** A number that Pow2(k + 1) does not divide has a multiple that is an odd number of Pow2(k). */
  lemma OddPartIsSmall(n: nat, k: nat, j: nat, m: nat)
    requires n == Pow2(j) * m && n % Pow2(k + 1) != 0
    ensures j <= k
  {
    if j > k {
      Pow2Add(k + 1, j - k - 1);
      MultipleHasNoRemainder(Pow2(k + 1), Pow2(j - k - 1), m);
    }
  }

  lemma FillUp(n: nat, k: nat, j: nat, m: nat)
    requires j <= k && n == Pow2(j) * m
    ensures Pow2(k - j) * n == m * Pow2(k)
  {
    Pow2Add(j, k - j);
    Rearrange(Pow2(j), Pow2(k - j), m);
  }

  lemma NotZero(n: nat, m: nat)
    requires m > 0 && n % m != 0
    ensures n > 0
  {
    DivModUnique(0, m, 0, 0);
  }

  lemma OddMultiple(n: nat, k: nat) returns (t: nat, m: nat)
    requires n % Pow2(k + 1) != 0
    ensures t * n == m * Pow2(k) && m % 2 == 1
  {
    var j;
    NotZero(n, Pow2(k + 1));
    j, m := OddPart(n);
    OddPartIsSmall(n, k, j, m);
    FillUp(n, k, j, m);
    t := Pow2(k - j);
  }

  lemma EvenTurns(n: nat, half: nat)
    requires half > 0 && n % (2 * half) == 0
    ensures 2 * (n / (2 * half)) * half == n
  {
    assert n == 2 * half * (n / (2 * half));
  }

  /** Half a period of 2^k steps between two different values makes the period exactly 2^(k + 1). */
  lemma PeriodFromHalf<T>(f: T -> T, x: T, y: T, k: nat, half: nat, n: nat)
    requires half == Pow2(k) && x != y && Iterate(f, x, half) == y && Iterate(f, y, half) == x
    ensures Iterate(f, x, n) == x <==> n % (2 * half) == 0
  {
    if n % (2 * half) == 0 {
      EvenTurns(n, half);
      HalfPeriods(f, x, y, half, 2 * (n / (2 * half)));
    } else if Iterate(f, x, n) == x {
      var t, m := OddMultiple(n, k);
      RepeatedCycle(f, x, n, t);
      HalfPeriods(f, x, y, half, m);
    }
  }
}
