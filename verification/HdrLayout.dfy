/**
  Value-to-bucket index arithmetic of the HdrHistogram, for any unit magnitude,
  sub-bucket half-count magnitude and number of buckets.
 */
module HdrLayout {
  import opened Arithmetic

  datatype Layout = Layout(unit: nat, half: nat, buckets: nat) {

    function HalfCount(): (h: int)
      ensures h > 0
    {
      Pow2(half)
    }

    function SubBucketCount(): int {
      Pow2(half + 1)
    }

    function Mask(): nat {
      MulAtLeast(SubBucketCount(), Pow2(unit));
      (SubBucketCount() - 1) * Pow2(unit)
    }

    function CountsLen(): nat {
      (buckets + 1) * HalfCount()
    }

    function BucketIndexFor(v: nat): int {
      BitLength(BitOr(v, Mask())) - unit - (half + 1)
    }

    function SubBucketIndexFor(v: nat, bucket: nat): nat {
      DivBounds(v, Pow2(bucket + unit));
      v / Pow2(bucket + unit)
    }

    function CountsIndex(bucket: int, sub: int): int {
      (bucket + 1) * HalfCount() + (sub - HalfCount())
    }

    function IndexFor(v: nat): (i: nat)
    {
      BucketIs(v);
      var bucket := BucketIndexFor(v);
      SubBucketBounds(v);
      BucketTimesHalf(bucket);
      CountsIndex(bucket, SubBucketIndexFor(v, bucket))
    }

    /** The lowest value of the bucket at an index. */
    function ValueFromIndex(i: nat): nat {
      var bucket := i / HalfCount() - 1;
      var sub := i % HalfCount() + HalfCount();
      if bucket < 0 then (sub - HalfCount()) * Pow2(unit)
      else sub * Pow2(bucket + unit)
    }

    function LowestEquivalent(v: nat): nat {
      BucketIs(v);
      var bucket := BucketIndexFor(v);
      SubBucketIndexFor(v, bucket) * Pow2(bucket + unit)
    }

    function RangeSize(v: nat): nat {
      BucketIs(v);
      Pow2(unit + BucketIndexFor(v))
    }

    function NextNonEquivalent(v: nat): nat {
      LowestEquivalent(v) + RangeSize(v)
    }

    function HighestEquivalent(v: nat): int {
      NextNonEquivalent(v) - 1
    }

    // ----- which bucket and sub-bucket -------------------------------------------

    lemma MaskLength()
      ensures BitLength(Mask()) == unit + half + 1
    {
      var u := Pow2(unit);
      Pow2Add(half, unit);
      Pow2Add(half + 1, unit);
      MaskBounds(HalfCount(), SubBucketCount(), u);
      BitLengthUnique(Mask(), unit + half + 1);
    }

    /** Bucket 0 holds the values below 2^(unit+half+1); bucket b > 0 holds one octave. */
    lemma BucketIs(v: nat)
      ensures BucketIndexFor(v) >= 0
      ensures v < Pow2(unit + half + 1 + BucketIndexFor(v))
      ensures BucketIndexFor(v) > 0 ==> Pow2(unit + half + BucketIndexFor(v)) <= v
    {
      MaskLength();
      BitLengthOr(v, Mask());
      BitLengthBounds(v);
      BitLengthLe(v, unit + half + 1);
    }

    lemma BucketUnique(v: nat, b: nat)
      requires v < Pow2(unit + half + 1 + b)
      requires b > 0 ==> Pow2(unit + half + b) <= v
      ensures BucketIndexFor(v) == b
    {
      BucketIs(v);
      var c := BucketIndexFor(v);
      if c < b {
        Pow2Monotone(unit + half + 1 + c, unit + half + b);
      } else if b < c {
        Pow2Monotone(unit + half + 1 + b, unit + half + c);
      }
    }

    /** The width of bucket b times the sub-bucket counts. */
    lemma Widths(b: nat)
      ensures Pow2(unit + half + b) == HalfCount() * Pow2(b + unit)
      ensures Pow2(unit + half + 1 + b) == 2 * HalfCount() * Pow2(b + unit)
    {
      Pow2Add(half, b + unit);
      Pow2Add(half + 1, b + unit);
    }

    predicate IsCell(b: nat, sub: nat) {
      sub < 2 * HalfCount() && (b > 0 ==> HalfCount() <= sub)
    }

    lemma SubBucketBounds(v: nat)
      ensures BucketIndexFor(v) >= 0
      ensures var b := BucketIndexFor(v); IsCell(b, SubBucketIndexFor(v, b))
    {
      BucketIs(v);
      var b := BucketIndexFor(v);
      Widths(b);
      var w := Pow2(b + unit);
      DivBelow(v, 2 * HalfCount(), w);
      if b > 0 {
        DivAtLeast(v, HalfCount(), w);
      }
    }

    lemma BucketTimesHalf(b: nat)
      ensures b * HalfCount() >= 0
      ensures (b + 1) * HalfCount() == b * HalfCount() + HalfCount()
    {
    }

    /** A value inside cell (b, sub) has that bucket and sub-bucket. */
    lemma CellOf(v: nat, b: nat, sub: nat)
      requires IsCell(b, sub)
      requires sub * Pow2(b + unit) <= v < sub * Pow2(b + unit) + Pow2(b + unit)
      ensures BucketIndexFor(v) == b && SubBucketIndexFor(v, b) == sub
    {
      var w := Pow2(b + unit);
      Widths(b);
      MulLess(sub, 2 * HalfCount(), w);
      if b > 0 && HalfCount() < sub {
        MulLess(HalfCount(), sub, w);
      }
      BucketUnique(v, b);
      DivModUnique(v, w, sub, v - w * sub);
    }

    // ----- indices and floors ----------------------------------------------------

    /** The cell an index stands for. */
    function BucketAt(i: nat): nat {
      if i < 2 * HalfCount() then 0 else
        DivAtLeast(i, 2, HalfCount());
        i / HalfCount() - 1
    }

    function SubAt(i: nat): int {
      i - BucketAt(i) * HalfCount()
    }

    lemma CellAt(i: nat)
      ensures SubAt(i) >= 0 && IsCell(BucketAt(i), SubAt(i))
      ensures ValueFromIndex(i) == SubAt(i) * Pow2(BucketAt(i) + unit)
    {
      var h := HalfCount();
      var q, r := i / h, i % h;
      assert i == q * h + r;
      if i < h {
        DivModUnique(i, h, 0, i);
      } else if i < 2 * h {
        DivModUnique(i, h, 1, i - h);
      } else {
        DivAtLeast(i, 2, h);
        assert (q - 1) * h == q * h - h;
      }
    }

    lemma IndexOfCell(b: nat, sub: nat)
      requires IsCell(b, sub)
      ensures CountsIndex(b, sub) == b * HalfCount() + sub >= 0
      ensures var i := b * HalfCount() + sub; BucketAt(i) == b && SubAt(i) == sub
    {
      var h := HalfCount();
      var i := b * h + sub;
      BucketTimesHalf(b);
      if b > 0 {
        MulAtLeast(b, h);
        DivModUnique(i, h, b + 1, sub - h);
      }
    }

    lemma InOwnCell(v: nat)
      ensures var i := IndexFor(v); BucketIndexFor(v) == BucketAt(i) && SubBucketIndexFor(v, BucketAt(i)) == SubAt(i)
    {
      BucketIs(v);
      SubBucketBounds(v);
      var b := BucketIndexFor(v);
      IndexOfCell(b, SubBucketIndexFor(v, b));
    }

    /** The index, lowest and next value of v, all read off v's own cell. */
    lemma CellOfValue(v: nat)
      ensures ValueFromIndex(IndexFor(v)) == LowestEquivalent(v) <= v < NextNonEquivalent(v)
      ensures BucketIndexFor(v) == BucketAt(IndexFor(v))
      ensures RangeSize(v) == Pow2(BucketAt(IndexFor(v)) + unit)
    {
      InOwnCell(v);
      CellAt(IndexFor(v));
      DivBounds(v, Pow2(BucketIndexFor(v) + unit));
    }

    /** Re-indexing a bucket's lowest value gives the bucket back. */
    lemma IndexOfFloor(i: nat)
      ensures IndexFor(ValueFromIndex(i)) == i
    {
      CellAt(i);
      var b, sub := BucketAt(i), SubAt(i);
      CellOf(ValueFromIndex(i), b, sub);
      IndexOfCell(b, sub);
    }

    /** Buckets abut: the next bucket starts one width above this one. */
    lemma FloorStep(i: nat)
      ensures ValueFromIndex(i + 1) == ValueFromIndex(i) + Pow2(BucketAt(i) + unit)
    {
      CellAt(i);
      CellAt(i + 1);
      var b, sub := BucketAt(i), SubAt(i);
      if sub + 1 < 2 * HalfCount() {
        IndexOfCell(b, sub + 1);
        NextMultiple(sub, Pow2(b + unit));
      } else {
        IndexOfCell(b + 1, HalfCount());
        BucketTimesHalf(b);
        Octave(HalfCount(), Pow2(b + unit));
      }
    }

    lemma NextMultiple(a: int, w: int)
      ensures (a + 1) * w == a * w + w
    {
    }

    lemma Octave(h: int, w: int)
      ensures h * (2 * w) == (2 * h - 1) * w + w
    {
    }

    lemma {:induction false} FloorMonotone(i: nat, j: nat)
      requires i <= j
      ensures ValueFromIndex(i) + (j - i) <= ValueFromIndex(j)
    {
      if i < j {
        FloorMonotone(i, j - 1);
        FloorStep(j - 1);
      }
    }

    /** Index i holds exactly the values from its floor up to the next floor. */
    lemma Tiling(v: nat, i: nat)
      ensures IndexFor(v) == i <==> ValueFromIndex(i) <= v < ValueFromIndex(i + 1)
    {
      CellOfValue(v);
      var j := IndexFor(v);
      FloorStep(j);
      if j < i {
        FloorMonotone(j + 1, i);
      } else if i < j {
        FloorMonotone(i + 1, j);
      }
    }

    /** Values below a floor are exactly those with a smaller index. */
    lemma IndexBelow(v: nat, n: nat)
      ensures IndexFor(v) < n <==> v < ValueFromIndex(n)
    {
      var j := IndexFor(v);
      Tiling(v, j);
      if j < n {
        FloorMonotone(j + 1, n);
      } else {
        FloorMonotone(n, j);
      }
    }

    lemma IndexMonotone(v: nat, w: nat)
      requires v <= w
      ensures IndexFor(v) <= IndexFor(w)
    {
      IndexBelow(v, IndexFor(w) + 1);
      IndexBelow(w, IndexFor(w) + 1);
    }

    /** Equivalent values share lowest, next and highest values. */
    lemma EquivalentValues(v: nat, w: nat)
      requires IndexFor(v) == IndexFor(w)
      ensures LowestEquivalent(v) == LowestEquivalent(w)
      ensures NextNonEquivalent(v) == NextNonEquivalent(w)
      ensures NextNonEquivalent(v) == ValueFromIndex(IndexFor(v) + 1)
    {
      CellOfValue(v);
      CellOfValue(w);
      FloorStep(IndexFor(v));
    }

    /** The counts array covers exactly the values below 2^(unit + half + buckets). */
    lemma TrackableRange(v: nat)
      requires buckets >= 1
      ensures IndexFor(v) < CountsLen() <==> v < Pow2(unit + half + buckets)
    {
      IndexOfCell(buckets, HalfCount());
      BucketTimesHalf(buckets);
      CellAt(CountsLen());
      Widths(buckets);
      IndexBelow(v, CountsLen());
    }

    /** A bucket above 0 is narrower than its values by the factor 2^half. */
    lemma BucketWidth(v: nat)
      ensures v <= HighestEquivalent(v) && HighestEquivalent(v) - v < RangeSize(v)
      ensures BucketIndexFor(v) > 0 ==> HalfCount() * RangeSize(v) <= v
    {
      CellOfValue(v);
      BucketIs(v);
      Widths(BucketIndexFor(v));
    }

    /** With single-unit resolution the reported value exceeds a sample by at most one part in 2^half. */
    lemma RelativeError(v: nat)
      requires unit == 0
      ensures (HighestEquivalent(v) - v) * HalfCount() <= v
    {
      BucketWidth(v);
      BucketIs(v);
      if BucketIndexFor(v) > 0 {
        ScaledError(HighestEquivalent(v) - v, RangeSize(v), HalfCount(), v);
      } else {
        UnitCell(v);
      }
    }

    /** Below the sub-bucket count every value is its own index, at unit 1. */
    lemma SmallValuesAreIndices(v: nat)
      requires unit == 0 && v < SubBucketCount()
      ensures IndexFor(v) == v && ValueFromIndex(v) == v && HighestEquivalent(v) == v
    {
      assert Pow2(0) == 1;
      CellOf(v, 0, v);
      CellOfValue(v);
    }

    lemma UpperHalf(v: nat)
      requires unit == 0 && v >= HalfCount()
      ensures BucketIndexFor(v) >= 0
      ensures var b := BucketIndexFor(v);
              var sub := SubBucketIndexFor(v, b);
              && HalfCount() <= sub < 2 * HalfCount()
              && sub * Pow2(b) <= v < sub * Pow2(b) + Pow2(b)
              && IndexFor(v) == b * HalfCount() + sub
    {
      SubBucketBounds(v);
      var b := BucketIndexFor(v);
      DivBounds(v, Pow2(b));
      if b == 0 {
        assert Pow2(0) == 1;
        DivModUnique(v, 1, v, 0);
      }
      IndexOfCell(b, SubBucketIndexFor(v, b));
    }

    lemma IndexOfTwice(v: nat, u: nat, b: nat, sub: nat)
      requires unit == 0 && HalfCount() <= sub < 2 * HalfCount() && (u == 2 * v || u == 2 * v + 1)
      requires sub * Pow2(b) <= v < sub * Pow2(b) + Pow2(b)
      ensures IndexFor(u) == (b + 1) * HalfCount() + sub
    {
      Doubled(sub, Pow2(b));
      CellOf(u, b + 1, sub);
      IndexOfCell(b + 1, sub);
    }

    lemma Doubled(sub: int, w: int)
      ensures sub * (2 * w) == 2 * (sub * w)
    {
    }

    /** From half of it on, doubling a value moves its index by the half count. */
    lemma IndexDoubles(v: nat)
      requires unit == 0 && v >= HalfCount()
      ensures IndexFor(2 * v) == IndexFor(2 * v + 1) == IndexFor(v) + HalfCount()
    {
      UpperHalf(v);
      var b := BucketIndexFor(v);
      IndexOfTwice(v, 2 * v, b, SubBucketIndexFor(v, b));
      IndexOfTwice(v, 2 * v + 1, b, SubBucketIndexFor(v, b));
      BucketTimesHalf(b);
    }

    /** The layout with the same precision whose lowest value is 1. */
    function AtUnitOne(): Layout {
      Layout(0, half, buckets)
    }

    /** A larger unit scales the floors, and indexes a value as unit 1 does the whole units in it. */
    lemma UnitScales(v: nat, i: nat)
      ensures ValueFromIndex(i) == AtUnitOne().ValueFromIndex(i) * Pow2(unit)
      ensures v / Pow2(unit) >= 0 && IndexFor(v) == AtUnitOne().IndexFor(v / Pow2(unit))
    {
      FloorScales(i);
      DivBounds(v, Pow2(unit));
      var units, one := v / Pow2(unit), AtUnitOne();
      var j := one.IndexFor(units);
      one.Tiling(units, j);
      FloorScales(j);
      FloorScales(j + 1);
      WholeUnits(v, units, Pow2(unit), one.ValueFromIndex(j), one.ValueFromIndex(j + 1));
      Tiling(v, j);
    }

    lemma FloorScales(i: nat)
      ensures ValueFromIndex(i) == AtUnitOne().ValueFromIndex(i) * Pow2(unit)
    {
      CellAt(i);
      AtUnitOne().CellAt(i);
      Pow2Add(BucketAt(i), unit);
      Regrouped(SubAt(i), Pow2(BucketAt(i)), Pow2(unit));
    }

    lemma UnitCell(v: nat)
      requires unit == 0 && BucketIndexFor(v) == 0
      ensures HighestEquivalent(v) == v
    {
      CellOfValue(v);
    }
  }

  lemma Regrouped(a: int, b: int, c: int)
    ensures a * (b * c) == a * b * c
  {
  }

  lemma WholeUnits(v: nat, units: nat, u: nat, lo: nat, hi: nat)
    requires units * u <= v < units * u + u && lo <= units < hi
    ensures lo * u <= v < hi * u
  {
    MulLess(units, hi, u);
    if lo < units {
      MulLess(lo, units, u);
    }
  }

  lemma MaskBounds(h: int, count: int, u: int)
    requires h > 0 && u > 0 && count == 2 * h
    ensures h * u <= (count - 1) * u < count * u
  {
    MulAtLeast(h, u);
    assert (count - 1) * u == h * u + (h - 1) * u;
  }

  lemma ScaledError(d: int, w: int, h: int, v: int)
    requires h > 0 && d < w && h * w <= v
    ensures d * h <= v
  {
    MulLess(d, w, h);
  }
}
