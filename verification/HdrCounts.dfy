/**
  What a histogram stores: sparse counts by index. Recording, merging and the
  percentile scan as functions on counts, and what they mean for the samples.
 */
module HdrCounts {
  import opened Arithmetic
  import opened HdrLayout

  type Counts = map<nat, nat>

  function At(c: Counts, i: nat): nat {
    if i in c then c[i] else 0
  }

  /** No zero entry is stored. */
  predicate Normal(c: Counts) {
    forall i <- c :: c[i] > 0
  }

  predicate Within(c: Counts, n: nat) {
    forall i <- c :: i < n
  }

  function Add(c: Counts, i: nat, k: nat): Counts {
    c[i := At(c, i) + k]
  }

  function Plus(a: Counts, b: Counts): Counts {
    map i | i in a.Keys + b.Keys :: At(a, i) + At(b, i)
  }

  /** The number of samples recorded at indices below n. */
  function Below(c: Counts, n: nat): nat {
    if n == 0 then 0 else Below(c, n - 1) + At(c, n - 1)
  }

  lemma NormalEqual(a: Counts, b: Counts)
    requires Normal(a) && Normal(b)
    requires forall i: nat :: At(a, i) == At(b, i)
    ensures a == b
  {
    forall i: nat
      ensures i in a <==> i in b
    {
      assert At(a, i) == At(b, i);
    }
    forall i | i in a
      ensures a[i] == b[i]
    {
      assert At(a, i) == At(b, i);
    }
    assert a.Keys == b.Keys;
  }

  lemma PlusNormal(a: Counts, b: Counts)
    requires Normal(a) && Normal(b)
    ensures Normal(Plus(a, b))
    ensures forall i: nat :: At(Plus(a, b), i) == At(a, i) + At(b, i)
  {
  }

  lemma {:induction false} BelowAdd(c: Counts, i: nat, k: nat, n: nat)
    ensures Below(Add(c, i, k), n) == Below(c, n) + if i < n then k else 0
  {
    if n > 0 {
      BelowAdd(c, i, k, n - 1);
    }
  }

  lemma {:induction false} BelowPlus(a: Counts, b: Counts, n: nat)
    ensures Below(Plus(a, b), n) == Below(a, n) + Below(b, n)
  {
    if n > 0 {
      BelowPlus(a, b, n - 1);
    }
  }

  lemma {:induction false} BelowMonotone(c: Counts, m: nat, n: nat)
    requires m <= n
    ensures Below(c, m) <= Below(c, n)
  {
    if m < n {
      BelowMonotone(c, m, n - 1);
    }
  }

  // ----- recording ---------------------------------------------------------------

  /** The counts of a sequence of recorded samples. */
  function FromValues(l: Layout, xs: seq<nat>): (c: Counts)
    ensures Normal(c)
  {
    if xs == [] then map[]
    else Add(FromValues(l, xs[..|xs| - 1]), l.IndexFor(xs[|xs| - 1]), 1)
  }

  /** How many samples are below v. */
  function NumBelow(xs: seq<nat>, v: int): (n: nat)
    ensures n <= |xs|
  {
    if xs == [] then 0
    else NumBelow(xs[..|xs| - 1], v) + if xs[|xs| - 1] < v then 1 else 0
  }

  /** Counting by index below n is counting by value below the floor of n. */
  lemma {:induction false} BelowIsNumBelow(l: Layout, xs: seq<nat>, n: nat)
    ensures Below(FromValues(l, xs), n) == NumBelow(xs, l.ValueFromIndex(n))
  {
    if xs == [] {
      BelowEmpty(n);
    } else {
      var ys, x := xs[..|xs| - 1], xs[|xs| - 1];
      BelowIsNumBelow(l, ys, n);
      BelowAdd(FromValues(l, ys), l.IndexFor(x), 1, n);
      l.IndexBelow(x, n);
    }
  }

  lemma {:induction false} BelowEmpty(n: nat)
    ensures Below(map[], n) == 0
  {
    if n > 0 {
      BelowEmpty(n - 1);
    }
  }

  lemma FromValuesLast(l: Layout, xs: seq<nat>, v: nat)
    ensures FromValues(l, xs + [v]) == Add(FromValues(l, xs), l.IndexFor(v), 1)
  {
    assert (xs + [v])[..|xs|] == xs;
  }

  lemma PlusNothing(c: Counts)
    ensures Plus(c, map[]) == c
  {
  }

  lemma SplitLast<T>(xs: seq<T>, ys: seq<T>)
    requires ys != []
    ensures ys == ys[..|ys| - 1] + [ys[|ys| - 1]]
    ensures xs + ys == xs + ys[..|ys| - 1] + [ys[|ys| - 1]]
  {
  }

  lemma AppendNothing(l: Layout, xs: seq<nat>)
    ensures FromValues(l, xs + []) == Plus(FromValues(l, xs), FromValues(l, []))
  {
    assert xs + [] == xs;
    PlusNothing(FromValues(l, xs));
  }

  lemma AppendLast(l: Layout, xs: seq<nat>, ys: seq<nat>, y: nat)
    requires FromValues(l, xs + ys) == Plus(FromValues(l, xs), FromValues(l, ys))
    ensures FromValues(l, xs + ys + [y]) == Plus(FromValues(l, xs), FromValues(l, ys + [y]))
  {
    FromValuesLast(l, xs + ys, y);
    FromValuesLast(l, ys, y);
    PlusAdd(FromValues(l, xs), FromValues(l, ys), l.IndexFor(y), 1);
  }

  lemma {:induction false} FromValuesAppend(l: Layout, xs: seq<nat>, ys: seq<nat>)
    ensures FromValues(l, xs + ys) == Plus(FromValues(l, xs), FromValues(l, ys))
  {
    if ys == [] {
      AppendNothing(l, xs);
    } else {
      FromValuesAppend(l, xs, ys[..|ys| - 1]);
      AppendLast(l, xs, ys[..|ys| - 1], ys[|ys| - 1]);
      SplitLast(xs, ys);
    }
  }

  lemma PlusAdd(a: Counts, b: Counts, i: nat, k: nat)
    ensures Plus(a, Add(b, i, k)) == Add(Plus(a, b), i, k)
  {
    var s, t := Plus(a, Add(b, i, k)), Add(Plus(a, b), i, k);
    assert s.Keys == t.Keys;
  }

  predicate AllBelow(xs: seq<nat>, v: int) {
    forall i :: 0 <= i < |xs| ==> xs[i] < v
  }

  lemma {:induction false} NumBelowAll(xs: seq<nat>, v: int)
    requires AllBelow(xs, v)
    ensures NumBelow(xs, v) == |xs|
  {
    if xs != [] {
      NumBelowAll(xs[..|xs| - 1], v);
    }
  }

  lemma {:induction false} NumBelowStep(xs: seq<nat>, v: int)
    ensures NumBelow(xs, v) <= NumBelow(xs, v + 1)
    ensures NumBelow(xs, v) < NumBelow(xs, v + 1) ==> v in xs
  {
    if xs != [] {
      NumBelowStep(xs[..|xs| - 1], v);
    }
  }

  lemma {:induction false} NumBelowMonotone(xs: seq<nat>, v: int, w: int)
    requires v <= w
    ensures NumBelow(xs, v) <= NumBelow(xs, w)
  {
    if xs != [] {
      NumBelowMonotone(xs[..|xs| - 1], v, w);
    }
  }

  // ----- percentiles -------------------------------------------------------------

  /** x is the k-th smallest sample. */
  predicate IsKthSmallest(xs: seq<nat>, k: int, x: nat) {
    x in xs && NumBelow(xs, x) < k <= NumBelow(xs, x + 1)
  }

  lemma {:induction false} KthFrom(xs: seq<nat>, k: int, lo: nat, hi: nat) returns (x: nat)
    requires lo < hi && NumBelow(xs, lo) < k <= NumBelow(xs, hi)
    ensures IsKthSmallest(xs, k, x)
    decreases hi - lo
  {
    NumBelowStep(xs, lo);
    if NumBelow(xs, lo + 1) < k {
      x := KthFrom(xs, k, lo + 1, hi);
    } else {
      x := lo;
    }
  }

  lemma {:induction false} NumBelowZero(xs: seq<nat>)
    ensures NumBelow(xs, 0) == 0
  {
    if xs != [] {
      NumBelowZero(xs[..|xs| - 1]);
    }
  }

  lemma {:induction false} Bounded(xs: seq<nat>) returns (limit: nat)
    ensures AllBelow(xs, limit)
  {
    limit := 0;
    if xs != [] {
      limit := Bounded(xs[..|xs| - 1]);
      if xs[|xs| - 1] >= limit {
        limit := xs[|xs| - 1] + 1;
      }
    }
  }

  /** Every rank has a sample, and only one value. */
  lemma KthExists(xs: seq<nat>, k: int, limit: nat) returns (x: nat)
    requires 1 <= k <= |xs| && AllBelow(xs, limit)
    ensures IsKthSmallest(xs, k, x)
    ensures forall y: nat :: IsKthSmallest(xs, k, y) ==> y == x
  {
    NumBelowZero(xs);
    NumBelowAll(xs, limit);
    x := KthFrom(xs, k, 0, limit);
    forall y: nat | IsKthSmallest(xs, k, y)
      ensures y == x
    {
      if y < x {
        NumBelowMonotone(xs, y + 1, x);
      } else if x < y {
        NumBelowMonotone(xs, x + 1, y);
      }
    }
  }

  /** The rank asked for by percentile p of total samples. */
  function RankFor(p: real, total: nat): (k: int)
    requires total > 0
    ensures 1 <= k <= total
  {
    var q := if p < 0.0 then 0.0 else if p > 100.0 then 100.0 else p;
    var share := (q / 100.0) * total as real;
    assert 0.0 <= share <= total as real by {
      ShareBounds(q / 100.0, total as real);
    }
    var up := -((-share).Floor);
    if up < 1 then 1 else up
  }

  lemma ShareBounds(f: real, t: real)
    requires 0.0 <= f <= 1.0 && t >= 0.0
    ensures 0.0 <= f * t <= t
  {
  }

  /** The rank is the least positive number that is no less than p percent of the total. */
  lemma RankIsLeast(p: real, total: nat)
    requires total > 0 && 0.0 <= p <= 100.0
    ensures var k, share := RankFor(p, total), p / 100.0 * total as real;
            && k >= 1 && share <= k as real
            && (k == 1 || (k - 1) as real < share)
  {
    var share := p / 100.0 * total as real;
    CeilingIsLeast(share, RankFor(p, total));
  }

  lemma CeilingIsLeast(share: real, k: int)
    requires k == if -((-share).Floor) < 1 then 1 else -((-share).Floor)
    ensures share <= k as real && (k == 1 || (k - 1) as real < share)
  {
  }

  /** Percentages below 0 and above 100 count as 0 and 100. */
  function Percent(p: real): real {
    if p < 0.0 then 0.0 else if p > 100.0 then 100.0 else p
  }

  lemma RankOfPercent(p: real, total: nat)
    requires total > 0
    ensures RankFor(p, total) == RankFor(Percent(p), total)
    ensures 0.0 <= Percent(p) <= 100.0 && (0.0 <= p <= 100.0 ==> Percent(p) == p)
    ensures p < 0.0 ==> Percent(p) == 0.0
    ensures p > 100.0 ==> Percent(p) == 100.0
  {
  }

  /** x is a sample with at least p percent of the samples at most x, and fewer than p percent, or none, below it. */
  predicate AtPercentile(xs: seq<nat>, p: real, x: nat) {
    && x in xs
    && 100.0 * NumBelow(xs, x + 1) as real >= p * |xs| as real
    && (NumBelow(xs, x) == 0 || 100.0 * NumBelow(xs, x) as real < p * |xs| as real)
  }

  lemma RankIsAtPercentile(xs: seq<nat>, p: real, x: nat)
    requires xs != [] && IsKthSmallest(xs, RankFor(p, |xs|), x)
    ensures AtPercentile(xs, Percent(p), x)
  {
    var k, q, share := RankShare(p, |xs|);
    AtRank(xs, q, k, share, x);
  }

  lemma RankShare(p: real, n: nat) returns (k: int, q: real, share: real)
    requires n > 0
    ensures k == RankFor(p, n) && q == Percent(p)
    ensures q * n as real == 100.0 * share && share <= k as real && (k == 1 || (k - 1) as real < share)
  {
    k, q := RankFor(p, n), Percent(p);
    share := q / 100.0 * n as real;
    RankOfPercent(p, n);
    RankIsLeast(q, n);
    PercentOf(q, n as real);
  }

  lemma AtRank(xs: seq<nat>, q: real, k: int, share: real, x: nat)
    requires IsKthSmallest(xs, k, x) && q * |xs| as real == 100.0 * share
    requires share <= k as real && (k == 1 || (k - 1) as real < share)
    ensures AtPercentile(xs, q, x)
  {
    RankInPercent(NumBelow(xs, x), NumBelow(xs, x + 1), k, share, q * |xs| as real);
  }

  lemma PercentOf(q: real, n: real)
    ensures q * n == 100.0 * (q / 100.0 * n)
  {
  }

  lemma RankInPercent(below: nat, upTo: nat, k: int, share: real, product: real)
    requires product == 100.0 * share && below < k <= upTo && share <= k as real
    requires k == 1 || (k - 1) as real < share
    ensures 100.0 * upTo as real >= product && (below == 0 || 100.0 * below as real < product)
  {
  }

  /** The scan: the first index from i whose running count reaches k. */
  function Scan(c: Counts, k: int, i: nat, len: nat): (r: nat)
    requires i <= len
    ensures i <= r <= len
    ensures forall j: nat :: i < j <= r ==> Below(c, j) < k
    ensures r < len ==> Below(c, r + 1) >= k
    decreases len - i
  {
    if i == len then len
    else if Below(c, i + 1) >= k then i
    else Scan(c, k, i + 1, len)
  }

  function ValueAtPercentile(l: Layout, c: Counts, total: nat, maxValue: int, p: real): int {
    if total == 0 then 0
    else
      var i := Scan(c, RankFor(p, total), 0, l.CountsLen());
      if i < l.CountsLen() then l.HighestEquivalent(l.ValueFromIndex(i)) else maxValue
  }

  /** The values a layout tracks. */
  predicate Tracked(l: Layout, xs: seq<nat>) {
    l.buckets >= 1 && AllBelow(xs, Pow2(l.unit + l.half + l.buckets))
  }

  /** The scan stops at the bucket of the k-th smallest sample. */
  lemma ScanFindsRank(l: Layout, xs: seq<nat>, k: int, x: nat)
    requires Tracked(l, xs) && IsKthSmallest(xs, k, x)
    ensures Scan(FromValues(l, xs), k, 0, l.CountsLen()) == l.IndexFor(x) < l.CountsLen()
  {
    var c, i, len := FromValues(l, xs), l.IndexFor(x), l.CountsLen();
    l.TrackableRange(x);
    l.CellOfValue(x);
    l.Tiling(x, i);
    BelowIsNumBelow(l, xs, i);
    BelowIsNumBelow(l, xs, i + 1);
    NumBelowMonotone(xs, l.ValueFromIndex(i), x);
    NumBelowMonotone(xs, x + 1, l.ValueFromIndex(i + 1));
    var r := Scan(c, k, 0, len);
    if r < i {
      BelowMonotone(c, r + 1, i);
    }
  }

  /**
    A percentile is the highest value equivalent to the sample of that rank: at
    least the sample, and above it by at most one part in 2^half. The fallback to
    the recorded maximum is never used.
   */
  lemma PercentileIsRank(l: Layout, xs: seq<nat>, maxValue: int, p: real, x: nat)
    requires Tracked(l, xs) && xs != []
    requires IsKthSmallest(xs, RankFor(p, |xs|), x)
    ensures var v := ValueAtPercentile(l, FromValues(l, xs), |xs|, maxValue, p);
            && v == l.HighestEquivalent(x) && x <= v
            && (l.unit == 0 ==> (v - x) * l.HalfCount() <= x)
  {
    ScanFindsRank(l, xs, RankFor(p, |xs|), x);
    l.IndexOfFloor(l.IndexFor(x));
    l.EquivalentValues(x, l.ValueFromIndex(l.IndexFor(x)));
    l.BucketWidth(x);
    if l.unit == 0 {
      l.RelativeError(x);
    }
  }

  // ----- merging -----------------------------------------------------------------

  /** Merge by re-recording the first n buckets of b at their floors. */
  function MergeFirst(l: Layout, a: Counts, b: Counts, n: nat): Counts {
    if n == 0 then a
    else
      var m := MergeFirst(l, a, b, n - 1);
      if At(b, n - 1) > 0 then Add(m, l.IndexFor(l.ValueFromIndex(n - 1)), At(b, n - 1)) else m
  }

  lemma {:induction false} MergeFirstAt(l: Layout, a: Counts, b: Counts, n: nat)
    requires Normal(a)
    ensures Normal(MergeFirst(l, a, b, n))
    ensures forall i: nat :: At(MergeFirst(l, a, b, n), i) == At(a, i) + if i < n then At(b, i) else 0
  {
    if n > 0 {
      MergeFirstAt(l, a, b, n - 1);
      l.IndexOfFloor(n - 1);
    }
  }

  /** Re-recording loses nothing exactly when every bucket lies inside the counts array. */
  lemma MergeIsLossless(l: Layout, a: Counts, b: Counts)
    requires Normal(a) && Normal(b)
    ensures MergeFirst(l, a, b, l.CountsLen()) == Plus(a, b) <==> Within(b, l.CountsLen())
  {
    var n := l.CountsLen();
    MergeFirstAt(l, a, b, n);
    PlusNormal(a, b);
    var m := MergeFirst(l, a, b, n);
    if Within(b, n) {
      NormalEqual(m, Plus(a, b));
    } else {
      var i: nat :| i in b && i >= n;
      assert At(m, i) == At(a, i) && At(Plus(a, b), i) > At(a, i);
    }
  }

  lemma {:induction false} FromValuesWithin(l: Layout, xs: seq<nat>)
    requires Tracked(l, xs)
    ensures Within(FromValues(l, xs), l.CountsLen())
  {
    if xs != [] {
      FromValuesWithin(l, xs[..|xs| - 1]);
      l.TrackableRange(xs[|xs| - 1]);
    }
  }

  /** Merging two histograms gives the histogram of all their samples. */
  lemma MergedSamples(l: Layout, xs: seq<nat>, ys: seq<nat>)
    requires Tracked(l, xs) && Tracked(l, ys)
    ensures MergeFirst(l, FromValues(l, xs), FromValues(l, ys), l.CountsLen()) == FromValues(l, xs + ys)
    ensures Tracked(l, xs + ys)
  {
    FromValuesWithin(l, ys);
    MergeIsLossless(l, FromValues(l, xs), FromValues(l, ys));
    FromValuesAppend(l, xs, ys);
  }
}
