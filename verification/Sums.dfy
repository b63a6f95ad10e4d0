/** Sums of a natural-valued function over a sequence, and occurrences in one. */
module Sums {

  function Sum<T>(ws: seq<T>, f: T -> nat): nat {
    if ws == [] then 0 else Sum(ws[..|ws| - 1], f) + f(ws[|ws| - 1])
  }

  lemma {:induction false} SumUpdate<T>(ws: seq<T>, i: nat, w: T, f: T -> nat)
    requires i < |ws|
    ensures Sum(ws[i := w], f) + f(ws[i]) == Sum(ws, f) + f(w)
  {
    var n := |ws| - 1;
    if i == n {
      assert ws[i := w][..n] == ws[..n];
    } else {
      SumUpdate(ws[..n], i, w, f);
      assert ws[i := w][..n] == ws[..n][i := w];
    }
  }

  lemma {:induction false} SumZero<T>(ws: seq<T>, f: T -> nat)
    requires forall i :: 0 <= i < |ws| ==> f(ws[i]) == 0
    ensures Sum(ws, f) == 0
  {
    if ws != [] {
      SumZero(ws[..|ws| - 1], f);
    }
  }

  lemma {:induction false} SumAtLeast<T>(ws: seq<T>, f: T -> nat, i: nat)
    requires i < |ws|
    ensures f(ws[i]) <= Sum(ws, f)
  {
    if i < |ws| - 1 {
      SumAtLeast(ws[..|ws| - 1], f, i);
    }
  }

  lemma {:induction false} SumAtMost<T(!new)>(ws: seq<T>, f: T -> nat, k: nat)
    requires forall w :: f(w) <= k
    ensures Sum(ws, f) <= k * |ws|
  {
    if ws != [] {
      SumAtMost(ws[..|ws| - 1], f, k);
      assert k * |ws| == k * (|ws| - 1) + k;
    }
  }

  // ----- occurrences -----------------------------------------------------------------

  /** How often x occurs. */
  function Times<T(==)>(xs: seq<T>, x: T): nat {
    if xs == [] then 0 else Times(xs[..|xs| - 1], x) + if xs[|xs| - 1] == x then 1 else 0
  }

  lemma {:induction false} TimesAppend<T>(xs: seq<T>, ys: seq<T>, x: T)
    ensures Times(xs + ys, x) == Times(xs, x) + Times(ys, x)
  {
    if ys == [] {
      assert xs + ys == xs;
    } else {
      assert (xs + ys)[..|xs + ys| - 1] == xs + ys[..|ys| - 1];
      TimesAppend(xs, ys[..|ys| - 1], x);
    }
  }

  lemma {:induction false} TimesIsMultiplicity<T>(xs: seq<T>, x: T)
    ensures Times(xs, x) == multiset(xs)[x]
  {
    if xs != [] {
      TimesIsMultiplicity(xs[..|xs| - 1], x);
      assert xs == xs[..|xs| - 1] + [xs[|xs| - 1]];
    }
  }
}
