/** The histogram object: construction, recording, merging, percentiles. */
module HdrHistogram {
  import opened Arithmetic
  import opened HdrLayout
  import opened HdrCounts

  const MAX_INT64 := 0x7FFF_FFFF_FFFF_FFFF

  // ----- construction ------------------------------------------------------------

  /** The least k with x <= 2^k. */
  function CeilLog2(x: nat): nat
    requires x > 0
  {
    BitLength(x - 1)
  }

  /** The greatest k with 2^k <= x. */
  function FloorLog2(x: nat): int
    requires x > 0
  {
    BitLength(x) - 1
  }

  function HalfMagnitude(sigFigs: nat): int {
    var magnitude := CeilLog2(2 * Pow10(sigFigs));
    if magnitude < 1 then 0 else magnitude - 1
  }

  /** Closed form of the bucket-count loop. */
  function BucketsFor(unit: nat, half: nat, highest: int): int {
    if highest <= Pow2(unit + half + 1) then 1 else CeilLog2(highest) - unit - half
  }

  lemma BucketsUnique(unit: nat, half: nat, highest: int, n: nat)
    requires n >= 1 && highest <= Pow2(unit + half + n)
    requires n > 1 ==> Pow2(unit + half + n - 1) < highest
    ensures BucketsFor(unit, half, highest) == n
  {
    if n > 1 {
      Pow2Monotone(unit + half + 1, unit + half + n - 1);
      BitLengthUnique(highest - 1, unit + half + n);
    }
  }

  /** Double the first untrackable value until it is no longer below highest. */
  method CountBuckets(unit: nat, half: nat, highest: int) returns (bucketsNeeded: nat)
    requires Pow2(unit + half + 1) <= MAX_INT64 && highest <= MAX_INT64
    ensures bucketsNeeded == BucketsFor(unit, half, highest) >= 1
    ensures highest <= Pow2(unit + half + bucketsNeeded)
  {
    var smallestUntrackable := Pow2(unit + half + 1);
    bucketsNeeded := 1;
    while smallestUntrackable < highest
      invariant bucketsNeeded >= 1
      invariant smallestUntrackable == Pow2(unit + half + bucketsNeeded) <= MAX_INT64
      invariant bucketsNeeded > 1 ==> Pow2(unit + half + bucketsNeeded - 1) < highest
      decreases highest - smallestUntrackable
    {
      if smallestUntrackable > MAX_INT64 / 2 {
        bucketsNeeded := bucketsNeeded + 1;
        break;
      }
      smallestUntrackable := 2 * smallestUntrackable;
      bucketsNeeded := bucketsNeeded + 1;
    }
    BucketsUnique(unit, half, highest, bucketsNeeded);
  }

  function LayoutFor(lowest: int, highest: int, sigFigs: nat): (l: Layout)
    requires lowest >= 1
    ensures l.buckets >= 1
  {
    var unit := FloorLog2(lowest);
    var half := HalfMagnitude(sigFigs);
    BucketsAtLeastOne(unit, half, highest);
    Layout(unit, half, BucketsFor(unit, half, highest))
  }

  lemma BucketsAtLeastOne(unit: nat, half: nat, highest: int)
    ensures BucketsFor(unit, half, highest) >= 1
  {
    if highest > Pow2(unit + half + 1) {
      BitLengthLe(highest - 1, unit + half);
      Pow2Monotone(unit + half, unit + half + 1);
    }
  }

  /**
    The unit is the greatest power of two within the lowest value, the sub-bucket
    count the least power of two that separates the asked digits, and the bucket
    count the least whose range reaches the highest value.
   */
  lemma LayoutParameters(lowest: int, highest: nat, sigFigs: nat)
    requires lowest >= 1
    ensures var l := LayoutFor(lowest, highest, sigFigs);
            && Pow2(l.unit) <= lowest < Pow2(l.unit + 1)
            && Pow2(l.half) < 2 * Pow10(sigFigs) <= Pow2(l.half + 1)
            && highest <= Pow2(l.unit + l.half + l.buckets)
            && (l.buckets > 1 ==> Pow2(l.unit + l.half + l.buckets - 1) < highest)
  {
    var l := LayoutFor(lowest, highest, sigFigs);
    BitLengthBounds(lowest);
    HalfIsLeast(sigFigs, 2 * Pow10(sigFigs));
    BucketsAreLeast(l.unit + l.half, l.buckets, highest);
  }

  lemma HalfIsLeast(sigFigs: nat, values: nat)
    requires values == 2 * Pow10(sigFigs)
    ensures HalfMagnitude(sigFigs) >= 0
    ensures Pow2(HalfMagnitude(sigFigs)) < values <= Pow2(HalfMagnitude(sigFigs) + 1)
  {
    BitLengthBounds(values - 1);
  }

  lemma BucketsAreLeast(m: nat, buckets: nat, highest: nat)
    requires buckets == if highest <= Pow2(m + 1) then 1 else BitLength(highest - 1) - m
    ensures highest <= Pow2(m + buckets) && (buckets > 1 ==> Pow2(m + buckets - 1) < highest)
  {
    RangeReachesHighest(m, buckets, highest);
    if buckets > 1 {
      BitLengthBounds(highest - 1);
    }
  }

  /**
    Every value below the highest is tracked. The highest itself is tracked exactly
    when it is not a power of two at or above the first untrackable value.
   */
  lemma HighestIsTracked(lowest: int, highest: nat, sigFigs: nat, v: nat)
    requires lowest >= 1 && v <= highest
    ensures var l := LayoutFor(lowest, highest, sigFigs);
            l.IndexFor(v) < l.CountsLen() <==>
            (v < highest || !(IsPow2(highest) && highest >= Pow2(l.unit + l.half + 1)))
  {
    var l := LayoutFor(lowest, highest, sigFigs);
    l.TrackableRange(v);
    RangeReachesHighest(l.unit + l.half, l.buckets, highest);
  }

  /** With buckets as counted, 2^(m + buckets) reaches the highest, and is it exactly for a large power of two. */
  lemma RangeReachesHighest(m: nat, buckets: nat, highest: nat)
    requires buckets == if highest <= Pow2(m + 1) then 1 else BitLength(highest - 1) - m
    ensures highest <= Pow2(m + buckets)
    ensures highest == Pow2(m + buckets) <==> IsPow2(highest) && highest >= Pow2(m + 1)
  {
    if highest <= Pow2(m + 1) {
      assert highest == Pow2(m + 1) ==> IsPow2(highest);
    } else {
      BitLengthBounds(highest - 1);
      var n := BitLength(highest - 1);
      BitLengthLe(highest - 1, m + 1);
      Pow2Monotone(m + 1, n);
      if IsPow2(highest) {
        var k: nat :| highest == Pow2(k);
        BetweenPowers(highest, k, n);
      } else {
        assert highest != Pow2(n);
      }
    }
  }

  lemma BetweenPowers(x: nat, k: nat, n: nat)
    requires x == Pow2(k) && n > 0 && Pow2(n - 1) < x <= Pow2(n)
    ensures k == n
  {
    Pow2Order(n - 1, k);
    Pow2Order(n, k);
  }

  /** The shared 1 us .. 600 s, three-digit layout tracks everything below 2^30. */
  lemma DefaultLayout()
    ensures LayoutFor(1, 600_000_000, 3) == Layout(0, 10, 20)
    ensures Layout(0, 10, 20).CountsLen() == 21504 && Layout(0, 10, 20).HalfCount() == 1024
    ensures Pow2(0 + 10 + 20) == 0x4000_0000
  {
    assert Pow2(10) == 1024 && Pow2(11) == 2048;
    Pow2Add(10, 10);
    Pow2Add(20, 10);
    assert Pow2(29) == 0x2000_0000;
    assert Pow10(3) == 1000;
    BitLengthUnique(1999, 11);
    BitLengthUnique(599_999_999, 30);
    BitLengthUnique(1, 1);
  }

  /** A power of two at or above the first untrackable value is not tracked by its own histogram. */
  lemma HighestCanBeUntracked(lowest: int, sigFigs: nat, k: nat)
    requires lowest >= 1
    requires k > FloorLog2(lowest) + HalfMagnitude(sigFigs)
    ensures var l := LayoutFor(lowest, Pow2(k), sigFigs); l.IndexFor(Pow2(k)) >= l.CountsLen()
  {
    HighestIsTracked(lowest, Pow2(k), sigFigs, Pow2(k));
    Pow2Monotone(FloorLog2(lowest) + HalfMagnitude(sigFigs) + 1, k);
  }

  /** For instance a histogram of lowest 1, highest 2048 and three digits does not track 2048. */
  lemma HighestCanBeUntrackedInstance(lowest: int, highest: nat, sigFigs: nat)
    requires lowest == 1 && highest == 2048 && sigFigs == 3
    ensures var l := LayoutFor(lowest, highest, sigFigs); l.IndexFor(highest) >= l.CountsLen()
  {
    ThreeDigits(lowest, sigFigs);
    var k := PowerOf2048(highest);
    HighestCanBeUntracked(lowest, sigFigs, k);
  }

  lemma PowerOf2048(x: nat) returns (k: nat)
    requires x == 2048
    ensures k == 11 && Pow2(k) == x
  {
    k := 11;
    Pow2Values();
    Pow2Add(8, 3);
    assert Pow2(3) == 8;
  }

  lemma ThreeDigits(lowest: int, sigFigs: nat)
    requires lowest == 1 && sigFigs == 3
    ensures FloorLog2(lowest) == 0 && HalfMagnitude(sigFigs) == 10
  {
    assert Pow2(10) == 1024 && Pow2(11) == 2048;
    assert Pow10(3) == 1000;
    BitLengthUnique(1999, 11);
    BitLengthUnique(1, 1);
  }

  /** An untracked sample is dropped by a merge. */
  lemma UntrackedIsDropped(l: Layout, v: nat)
    requires l.IndexFor(v) >= l.CountsLen()
    ensures MergeFirst(l, map[], FromValues(l, [v]), l.CountsLen()) == map[]
  {
    var i, empty: Counts := l.IndexFor(v), map[];
    var c := FromValues(l, [v]);
    assert [v][..0] == [] && FromValues(l, []) == empty;
    assert c == Add(empty, i, 1);
    MergeFirstAt(l, empty, c, l.CountsLen());
    NormalEqual(MergeFirst(l, empty, c, l.CountsLen()), empty);
  }

  /** bitLength: halve until zero. */
  method ComputeBitLength(value: nat) returns (length: nat)
    ensures length == BitLength(value)
  {
    var v := value;
    length := 0;
    while v > 0
      invariant BitLength(value) == length + BitLength(v)
    {
      v := v / 2;
      length := length + 1;
    }
  }

  // ----- the recorded extremes ----------------------------------------------------

  function Raised(max: int, value: int): int {
    if value > max then value else max
  }

  /** The recorded minimum ignores 0. */
  function Lowered(min: int, value: int): int {
    if value != 0 && value < min then value else min
  }

  /** The extremes after re-recording the first n buckets at their floors. */
  function MaxFloor(l: Layout, c: Counts, n: nat, max: int): int {
    if n == 0 then max
    else
      var m := MaxFloor(l, c, n - 1, max);
      if At(c, n - 1) > 0 then Raised(m, l.ValueFromIndex(n - 1)) else m
  }

  function MinFloor(l: Layout, c: Counts, n: nat, min: int): int {
    if n == 0 then min
    else
      var m := MinFloor(l, c, n - 1, min);
      if At(c, n - 1) > 0 then Lowered(m, l.ValueFromIndex(n - 1)) else m
  }

  /** Merged extremes bound the floors of the populated buckets. */
  lemma {:induction false} FloorsWithinExtremes(l: Layout, c: Counts, n: nat, min: int, max: int, i: nat)
    requires i < n && At(c, i) > 0
    ensures l.ValueFromIndex(i) <= MaxFloor(l, c, n, max)
    ensures l.ValueFromIndex(i) == 0 || MinFloor(l, c, n, min) <= l.ValueFromIndex(i)
  {
    if i < n - 1 {
      FloorsWithinExtremes(l, c, n - 1, min, max, i);
    }
  }

  /** And each of them is an extreme that was there or the floor of a populated bucket. */
  lemma {:induction false} ExtremesAttained(l: Layout, c: Counts, n: nat, min: int, max: int)
    ensures max <= MaxFloor(l, c, n, max) && MinFloor(l, c, n, min) <= min
    ensures MaxFloor(l, c, n, max) != max ==>
              exists i: nat :: i < n && At(c, i) > 0 && l.ValueFromIndex(i) == MaxFloor(l, c, n, max)
    ensures MinFloor(l, c, n, min) != min ==>
              exists i: nat :: i < n && At(c, i) > 0 && l.ValueFromIndex(i) == MinFloor(l, c, n, min) != 0
  {
    if n > 0 {
      ExtremesAttained(l, c, n - 1, min, max);
    }
  }

  function MaxAfter(xs: seq<nat>, max: int): int {
    if xs == [] then max else Raised(MaxAfter(xs[..|xs| - 1], max), xs[|xs| - 1])
  }

  function MinAfter(xs: seq<nat>, min: int): int {
    if xs == [] then min else Lowered(MinAfter(xs[..|xs| - 1], min), xs[|xs| - 1])
  }

  /** After recording values the maximum is the greatest of them and the minimum the least that is not 0. */
  lemma {:induction false} RecordedExtremes(xs: seq<nat>, min: int, max: int)
    ensures (max == MaxAfter(xs, max) || MaxAfter(xs, max) in xs) && max <= MaxAfter(xs, max)
    ensures min == MinAfter(xs, min) || (MinAfter(xs, min) in xs && MinAfter(xs, min) != 0)
    ensures MinAfter(xs, min) <= min
    ensures forall x <- xs :: x <= MaxAfter(xs, max) && (x == 0 || MinAfter(xs, min) <= x)
  {
    if xs != [] {
      RecordedExtremes(xs[..|xs| - 1], min, max);
      assert xs == xs[..|xs| - 1] + [xs[|xs| - 1]];
    }
  }

  /** Percentile 0 is reported from the least sample, 100 from the greatest, and without samples both are 0. */
  lemma EdgePercentiles(l: Layout, xs: seq<nat>, maxValue: int, least: nat, greatest: nat)
    requires Tracked(l, xs) && least in xs && greatest in xs
    requires forall i :: 0 <= i < |xs| ==> least <= xs[i] <= greatest
    ensures ValueAtPercentile(l, FromValues(l, xs), |xs|, maxValue, 0.0) == l.HighestEquivalent(least)
    ensures ValueAtPercentile(l, FromValues(l, xs), |xs|, maxValue, 100.0) == l.HighestEquivalent(greatest)
    ensures ValueAtPercentile(l, map[], 0, maxValue, 0.0) == ValueAtPercentile(l, map[], 0, maxValue, 100.0) == 0
  {
    EdgeRanks(|xs|);
    LeastIsFirst(xs, least);
    GreatestIsLast(xs, greatest);
    PercentileIsRank(l, xs, maxValue, 0.0, least);
    PercentileIsRank(l, xs, maxValue, 100.0, greatest);
  }

  lemma EdgeRanks(n: nat)
    requires n > 0
    ensures RankFor(0.0, n) == 1 && RankFor(100.0, n) == n
  {
    RankIsLeast(0.0, n);
    RankIsLeast(100.0, n);
  }

  lemma LeastIsFirst(xs: seq<nat>, least: nat)
    requires least in xs && forall i :: 0 <= i < |xs| ==> least <= xs[i]
    ensures IsKthSmallest(xs, 1, least)
  {
    NoneBelow(xs, least);
    SomeBelow(xs, least, least + 1);
  }

  lemma GreatestIsLast(xs: seq<nat>, greatest: nat)
    requires greatest in xs && forall i :: 0 <= i < |xs| ==> xs[i] <= greatest
    ensures IsKthSmallest(xs, |xs|, greatest)
  {
    NotAllBelow(xs, greatest);
    NumBelowAll(xs, greatest + 1);
  }

  lemma {:induction false} NoneBelow(xs: seq<nat>, v: int)
    requires forall i :: 0 <= i < |xs| ==> v <= xs[i]
    ensures NumBelow(xs, v) == 0
  {
    if xs != [] {
      NoneBelow(xs[..|xs| - 1], v);
    }
  }

  lemma {:induction false} SomeBelow(xs: seq<nat>, x: nat, v: int)
    requires x in xs && x < v
    ensures NumBelow(xs, v) > 0
  {
    if xs[|xs| - 1] != x {
      SomeBelow(xs[..|xs| - 1], x, v);
    }
  }

  lemma {:induction false} NotAllBelow(xs: seq<nat>, x: nat)
    requires x in xs
    ensures NumBelow(xs, x) < |xs|
  {
    if xs[|xs| - 1] != x {
      NotAllBelow(xs[..|xs| - 1], x);
    }
  }

  // ----- the object --------------------------------------------------------------

  class Histogram {
    const layout: Layout
    var counts: Counts
    var total: nat
    var minValue: int
    var maxValue: int

    predicate Valid()
      reads this
    {
      Normal(counts) && layout.buckets >= 1
    }

    constructor (lowest: int, highest: int, sigFigs: nat)
      requires 1 <= lowest && highest <= MAX_INT64
      requires Pow2(FloorLog2(lowest) + HalfMagnitude(sigFigs) + 1) <= MAX_INT64
      ensures Valid() && layout == LayoutFor(lowest, highest, sigFigs)
      ensures counts == map[] && total == 0 && maxValue == 0 && minValue == MAX_INT64
    {
      var unit, half := FloorLog2(lowest), HalfMagnitude(sigFigs);
      var buckets := CountBuckets(unit, half, highest);
      layout := Layout(unit, half, buckets);
      counts := map[];
      total := 0;
      minValue := MAX_INT64;
      maxValue := 0;
    }

    /** An empty histogram over an already computed layout. */
    constructor WithLayout(layout: Layout)
      requires layout.buckets >= 1
      ensures Valid() && this.layout == layout
      ensures counts == map[] && total == 0 && maxValue == 0 && minValue == MAX_INT64
    {
      this.layout := layout;
      counts := map[];
      total := 0;
      minValue := MAX_INT64;
      maxValue := 0;
    }

    method RecordValueWithCount(value: int, count: int)
      requires Valid()
      modifies this
      ensures Valid()
      ensures value < 0 || count <= 0 ==> unchanged(this)
      ensures value >= 0 && count > 0 ==>
                && counts == Add(old(counts), layout.IndexFor(value), count)
                && total == old(total) + count
                && maxValue == Raised(old(maxValue), value) && minValue == Lowered(old(minValue), value)
    {
      if value < 0 || count <= 0 {
        return;
      }
      var idx := layout.IndexFor(value);
      counts := Add(counts, idx, count);
      total := total + count;
      if value > maxValue {
        maxValue := value;
      }
      if value != 0 && value < minValue {
        minValue := value;
      }
    }

    method Record(value: int)
      requires Valid()
      modifies this
      ensures Valid()
      ensures counts == if value < 0 then old(counts) else Add(old(counts), layout.IndexFor(value), 1)
      ensures total == if value < 0 then old(total) else old(total) + 1
      ensures maxValue == if value < 0 then old(maxValue) else Raised(old(maxValue), value)
      ensures minValue == if value < 0 then old(minValue) else Lowered(old(minValue), value)
    {
      RecordValueWithCount(value, 1);
    }

    function RawCountAt(i: nat): nat
      reads this
    {
      At(counts, i)
    }

    /** Re-record every bucket of other at its floor. Merging a histogram into itself doubles it. */
    method Merge(other: Histogram)
      requires Valid() && other.Valid() && other.layout == layout
      modifies this
      ensures Valid()
      ensures counts == MergeFirst(layout, old(counts), old(other.counts), layout.CountsLen())
      ensures total == old(total) + Below(old(other.counts), layout.CountsLen())
      ensures maxValue == MaxFloor(layout, old(other.counts), layout.CountsLen(), old(maxValue))
      ensures minValue == MinFloor(layout, old(other.counts), layout.CountsLen(), old(minValue))
    {
      ghost var a, b := counts, other.counts;
      var i := 0;
      MergeFirstAt(layout, a, b, 0);
      while i < other.layout.CountsLen()
        invariant 0 <= i <= layout.CountsLen()
        invariant Valid() && counts == MergeFirst(layout, a, b, i)
        invariant total == old(total) + Below(b, i)
        invariant maxValue == MaxFloor(layout, b, i, old(maxValue)) && minValue == MinFloor(layout, b, i, old(minValue))
        invariant other != this ==> other.counts == b
      {
        MergeFirstAt(layout, a, b, i);
        var c := other.RawCountAt(i);
        assert c == At(b, i);
        if c > 0 {
          RecordValueWithCount(other.layout.ValueFromIndex(i), c);
        }
        i := i + 1;
      }
    }

    method Percentile(p: real) returns (v: int)
      requires Valid()
      ensures v == ValueAtPercentile(layout, counts, total, maxValue, p)
    {
      if total == 0 {
        return 0;
      }
      var countAt := RankFor(p, total);
      var running := 0;
      var i := 0;
      while i < layout.CountsLen()
        invariant 0 <= i <= layout.CountsLen()
        invariant running == Below(counts, i)
        invariant Scan(counts, countAt, i, layout.CountsLen()) == Scan(counts, countAt, 0, layout.CountsLen())
      {
        running := running + RawCountAt(i);
        if running >= countAt {
          return layout.HighestEquivalent(layout.ValueFromIndex(i));
        }
        i := i + 1;
      }
      return maxValue;
    }

    method Min() returns (v: int)
      requires Valid()
      ensures v == ValueAtPercentile(layout, counts, total, maxValue, 0.0)
    {
      if total == 0 {
        return 0;
      }
      v := Percentile(0.0);
    }

    method Max() returns (v: int)
      requires Valid()
      ensures v == ValueAtPercentile(layout, counts, total, maxValue, 100.0)
    {
      if total == 0 {
        return 0;
      }
      v := Percentile(100.0);
    }

    /** One past the highest populated index. */
    method RelevantLength() returns (n: nat)
      requires Valid()
      ensures IsRelevantLength(counts, n)
    {
      var maxIdx := -1;
      var pending := counts.Keys;
      while pending != {}
        invariant pending <= counts.Keys
        invariant maxIdx >= -1 && (maxIdx >= 0 ==> maxIdx in counts)
        invariant forall i <- counts.Keys :: i in pending || i <= maxIdx
        decreases pending
      {
        var idx :| idx in pending;
        if counts[idx] != 0 && idx > maxIdx {
          maxIdx := idx;
        }
        pending := pending - {idx};
      }
      n := maxIdx + 1;
    }
  }

  predicate IsRelevantLength(c: Counts, n: nat) {
    Within(c, n) && (n > 0 ==> n - 1 in c)
  }
}
