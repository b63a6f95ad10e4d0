/**
  Outlier runs: four detectors vote, and two votes discard a run. Values are reals;
  the sample deviation and the critical value of the Grubbs test are parameters.
 */
module Outliers {
  const MODIFIED_Z_THRESHOLD := 3.5
  const IQR_MULTIPLIER := 1.5
  const PCT_DEVIATION_THRESHOLD := 15.0
  const CONSENSUS_MIN_METHODS := 2

  // ----- statistics ----------------------------------------------------------------------

  function Abs(x: real): real {
    if x >= 0.0 then x else -x
  }

  predicate Ordered(s: seq<real>) {
    forall i, j :: 0 <= i < j < |s| ==> s[i] <= s[j]
  }

  function Insert(x: real, s: seq<real>): (r: seq<real>)
    ensures |r| == |s| + 1
  {
    if s == [] || x <= s[0] then [x] + s else [s[0]] + Insert(x, s[1..])
  }

  function Sorted(s: seq<real>): (r: seq<real>)
    ensures |r| == |s|
  {
    if s == [] then [] else Insert(s[0], Sorted(s[1..]))
  }

  lemma {:induction false} InsertKeepsOrder(x: real, s: seq<real>)
    requires Ordered(s)
    ensures Ordered(Insert(x, s)) && multiset(Insert(x, s)) == multiset(s) + multiset{x}
    ensures Insert(x, s)[0] == if s == [] || x <= s[0] then x else s[0]
  {
    if s == [] || x <= s[0] {
      PrependOrdered(x, s);
    } else {
      assert s == [s[0]] + s[1..];
      InsertKeepsOrder(x, s[1..]);
      PrependOrdered(s[0], Insert(x, s[1..]));
    }
  }

  lemma PrependOrdered(x: real, s: seq<real>)
    requires Ordered(s) && (s != [] ==> x <= s[0])
    ensures Ordered([x] + s)
  {
  }

  lemma {:induction false} SortedIsOrdered(s: seq<real>)
    ensures Ordered(Sorted(s)) && multiset(Sorted(s)) == multiset(s)
  {
    if s != [] {
      assert s == [s[0]] + s[1..];
      SortedIsOrdered(s[1..]);
      InsertKeepsOrder(s[0], Sorted(s[1..]));
    }
  }

  lemma PositionInSorted(s: seq<real>, j: nat) returns (k: nat)
    requires j < |s|
    ensures k < |s| && Sorted(s)[k] == s[j]
  {
    SortedIsOrdered(s);
    assert s[j] in multiset(s);
    assert s[j] in multiset(Sorted(s));
    k :| k < |Sorted(s)| && Sorted(s)[k] == s[j];
  }

  lemma PositionInOriginal(s: seq<real>, k: nat) returns (j: nat)
    requires k < |s|
    ensures j < |s| && s[j] == Sorted(s)[k]
  {
    SortedIsOrdered(s);
    assert Sorted(s)[k] in multiset(Sorted(s));
    assert Sorted(s)[k] in multiset(s);
    j :| j < |s| && s[j] == Sorted(s)[k];
  }

  function Total(s: seq<real>): real {
    if s == [] then 0.0 else Total(s[..|s| - 1]) + s[|s| - 1]
  }

  function Mean(s: seq<real>): real
    requires s != []
  {
    Total(s) / |s| as real
  }

  function Median(values: seq<real>): real
    requires values != []
  {
    var s, n := Sorted(values), |values|;
    if n % 2 == 1 then s[n / 2] else (s[n / 2 - 1] + s[n / 2]) / 2.0
  }

  function Deviations(values: seq<real>, center: real): (r: seq<real>)
    ensures |r| == |values| && forall i :: 0 <= i < |r| ==> r[i] == Abs(values[i] - center)
  {
    seq(|values|, i requires 0 <= i < |values| => Abs(values[i] - center))
  }

  /** The median deviation, or the mean deviation when that is zero. */
  function SpreadOf(deviations: seq<real>): real
    requires deviations != []
  {
    var mad := Median(deviations);
    if mad == 0.0 then Mean(deviations) else mad
  }

  function Spread(values: seq<real>): real
    requires values != []
  {
    SpreadOf(Deviations(values, Median(values)))
  }

  // ----- what each detector flags --------------------------------------------------------

  predicate BeyondZ(v: real, med: real, spread: real) {
    spread != 0.0 && Abs(0.6745 * (v - med) / spread) > MODIFIED_Z_THRESHOLD
  }

  predicate BeyondFences(v: real, q1: real, q3: real) {
    v < q1 - IQR_MULTIPLIER * (q3 - q1) || v > q3 + IQR_MULTIPLIER * (q3 - q1)
  }

  predicate BeyondPercent(v: real, med: real) {
    med != 0.0 && Abs(v - med) / med * 100.0 > PCT_DEVIATION_THRESHOLD
  }

  predicate FarByZ(values: seq<real>, i: nat)
    requires i < |values|
  {
    |values| >= 3 && BeyondZ(values[i], Median(values), Spread(values))
  }

  function LowerQuartile(values: seq<real>): real
    requires values != []
  {
    Sorted(values)[|values| / 4]
  }

  function UpperQuartile(values: seq<real>): real
    requires values != []
  {
    Sorted(values)[3 * |values| / 4]
  }

  predicate OutsideFences(values: seq<real>, i: nat)
    requires i < |values|
  {
    |values| >= 4 && BeyondFences(values[i], LowerQuartile(values), UpperQuartile(values))
  }

  predicate FarByPercent(values: seq<real>, i: nat)
    requires i < |values|
  {
    |values| >= 2 && BeyondPercent(values[i], Median(values))
  }

  /** The value farthest from the mean; of equals the one with the highest index. */
  predicate Farthest(values: seq<real>, i: nat)
    requires i < |values|
  {
    forall j :: 0 <= j < |values| ==>
      && Abs(values[j] - Mean(values)) <= Abs(values[i] - Mean(values))
      && (j > i ==> Abs(values[j] - Mean(values)) < Abs(values[i] - Mean(values)))
  }

  predicate FarByGrubbs(values: seq<real>, stdev: real, critical: real, i: nat)
    requires i < |values| && stdev >= 0.0
  {
    && |values| >= 3 && stdev != 0.0 && Farthest(values, i)
    && Abs(values[i] - Mean(values)) / stdev > critical
  }

  function Vote(flagged: bool): nat {
    if flagged then 1 else 0
  }

  function Votes(values: seq<real>, stdev: real, critical: real, i: nat): nat
    requires i < |values| && stdev >= 0.0
  {
    Vote(FarByZ(values, i)) + Vote(OutsideFences(values, i)) + Vote(FarByPercent(values, i))
    + Vote(FarByGrubbs(values, stdev, critical, i))
  }

  // ----- detectors -----------------------------------------------------------------------

  /** The loop of the first three detectors: the indices of the values that meet the test. */
  method Flag(values: seq<real>, far: real -> bool) returns (flagged: set<nat>)
    ensures forall i: nat :: i in flagged <==> i < |values| && far(values[i])
  {
    flagged := {};
    for i := 0 to |values|
      invariant forall k: nat :: k in flagged <==> k < i && far(values[k])
    {
      if far(values[i]) {
        flagged := flagged + {i};
      }
    }
  }

  method DetectModifiedZscore(values: seq<real>) returns (flagged: set<nat>)
    ensures forall i: nat :: i in flagged <==> i < |values| && FarByZ(values, i)
  {
    if |values| < 3 {
      return {};
    }
    var med := Median(values);
    var deviations := Deviations(values, med);
    var mad := Median(deviations);
    if mad == 0.0 {
      mad := Mean(deviations);
    }
    if mad == 0.0 {
      return {};
    }
    var far := v => Abs(0.6745 * (v - med) / mad) > MODIFIED_Z_THRESHOLD;
    flagged := Flag(values, far);
    assert mad == Spread(values);
    forall i: nat | i < |values|
      ensures far(values[i]) == FarByZ(values, i)
    {
    }
  }

  method DetectIqr(values: seq<real>) returns (flagged: set<nat>)
    ensures forall i: nat :: i in flagged <==> i < |values| && OutsideFences(values, i)
  {
    if |values| < 4 {
      return {};
    }
    var sorted := Sorted(values);
    var n := |sorted|;
    var q1 := sorted[n / 4];
    var q3 := sorted[3 * n / 4];
    var iqr := q3 - q1;
    var lower := q1 - IQR_MULTIPLIER * iqr;
    var upper := q3 + IQR_MULTIPLIER * iqr;
    flagged := Flag(values, v => v < lower || v > upper);
  }

  method DetectPctDeviation(values: seq<real>) returns (flagged: set<nat>)
    ensures forall i: nat :: i in flagged <==> i < |values| && FarByPercent(values, i)
  {
    if |values| < 2 {
      return {};
    }
    var med := Median(values);
    if med == 0.0 {
      return {};
    }
    var far := v => Abs(v - med) / med * 100.0 > PCT_DEVIATION_THRESHOLD;
    flagged := Flag(values, far);
    forall i: nat | i < |values|
      ensures far(values[i]) == FarByPercent(values, i)
    {
    }
  }

  /** The largest of the pairs (statistic, index) up to n. */
  function LargestPair(g: seq<real>, n: nat): (r: nat)
    requires 0 < n <= |g|
    ensures r < n
    ensures forall j :: 0 <= j < n ==> g[j] <= g[r] && (j > r ==> g[j] < g[r])
  {
    if n == 1 then 0
    else
      var r := LargestPair(g, n - 1);
      if g[n - 1] >= g[r] then n - 1 else r
  }

  lemma DivideOrder(a: real, b: real, s: real)
    requires s > 0.0
    ensures a / s <= b / s <==> a <= b
  {
    assert a == a / s * s && b == b / s * s;
    if a / s <= b / s {
      ScaleOrder(a / s, b / s, s);
    } else {
      ScaleStrict(b / s, a / s, s);
    }
  }

  lemma ScaleOrder(x: real, y: real, s: real)
    requires s > 0.0 && x <= y
    ensures x * s <= y * s
  {
    assert (y - x) * s >= 0.0;
  }

  lemma ScaleStrict(x: real, y: real, s: real)
    requires s > 0.0 && x < y
    ensures x * s < y * s
  {
    assert (y - x) * s > 0.0;
  }

  lemma OnlyOneFarthest(values: seq<real>, i: nat, j: nat)
    requires i < |values| && j < |values| && Farthest(values, i) && Farthest(values, j)
    ensures i == j
  {
    var m := Mean(values);
    assert Abs(values[i] - m) <= Abs(values[j] - m) && Abs(values[j] - m) <= Abs(values[i] - m);
  }

  method DetectGrubbs(values: seq<real>, stdev: real, critical: real) returns (flagged: set<nat>)
    requires stdev >= 0.0
    ensures forall i: nat :: i in flagged <==> i < |values| && FarByGrubbs(values, stdev, critical, i)
    ensures |flagged| <= 1
  {
    if |values| < 3 || stdev == 0.0 {
      return {};
    }
    var m := Mean(values);
    var g := seq(|values|, i requires 0 <= i < |values| => Abs(values[i] - m) / stdev);
    var index := LargestPair(g, |g|);
    forall j | 0 <= j < |values|
      ensures Abs(values[j] - m) <= Abs(values[index] - m)
      ensures j > index ==> Abs(values[j] - m) < Abs(values[index] - m)
    {
      assert g[j] <= g[index];
      DivideOrder(Abs(values[j] - m), Abs(values[index] - m), stdev);
      DivideOrder(Abs(values[index] - m), Abs(values[j] - m), stdev);
    }
    assert Farthest(values, index);
    forall i: nat | i < |values| && FarByGrubbs(values, stdev, critical, i)
      ensures i == index
    {
      OnlyOneFarthest(values, i, index);
    }
    if g[index] > critical {
      return {index};
    }
    return {};
  }

  /** The indices in two or more of the sets. */
  method Consensus(byZ: set<nat>, byIqr: set<nat>, byPct: set<nat>, byGrubbs: set<nat>) returns (consensus: set<nat>)
    ensures forall i: nat :: i in consensus <==>
              Vote(i in byZ) + Vote(i in byIqr) + Vote(i in byPct) + Vote(i in byGrubbs) >= CONSENSUS_MIN_METHODS
  {
    consensus := {};
    var all := byZ + byIqr + byPct + byGrubbs;
    var rest := all;
    while rest != {}
      invariant rest <= all
      invariant forall i: nat :: i in consensus <==>
                  && i in all && i !in rest
                  && Vote(i in byZ) + Vote(i in byIqr) + Vote(i in byPct) + Vote(i in byGrubbs) >= CONSENSUS_MIN_METHODS
      decreases |rest|
    {
      var index :| index in rest;
      rest := rest - {index};
      var count := Vote(index in byZ) + Vote(index in byIqr) + Vote(index in byPct) + Vote(index in byGrubbs);
      if count >= CONSENSUS_MIN_METHODS {
        consensus := consensus + {index};
      }
    }
  }

  /** With fewer than three runs only one detector can flag any. */
  lemma FewRunsAgree(values: seq<real>, stdev: real, critical: real, i: nat)
    requires i < |values| < 3 && stdev >= 0.0
    ensures Votes(values, stdev, critical, i) <= 1
  {
  }

  /** Exactly the runs with two votes. */
  method FindConsensusOutliers(values: seq<real>, stdev: real, critical: real) returns (consensus: set<nat>)
    requires stdev >= 0.0
    ensures forall i: nat :: i in consensus <==>
              i < |values| && Votes(values, stdev, critical, i) >= CONSENSUS_MIN_METHODS
  {
    if |values| < 3 {
      forall i: nat | i < |values| {
        FewRunsAgree(values, stdev, critical, i);
      }
      return {};
    }
    var byZ := DetectModifiedZscore(values);
    var byIqr := DetectIqr(values);
    var byPct := DetectPctDeviation(values);
    var byGrubbs := DetectGrubbs(values, stdev, critical);
    consensus := Consensus(byZ, byIqr, byPct, byGrubbs);
  }

  // ----- what the tests mean -------------------------------------------------------------

  lemma ScaledRatio(x: real, y: real, t: real)
    requires y > 0.0
    ensures x / y > t <==> x > t * y
  {
    var q := x / y;
    assert q * y == x;
    if q > t {
      ScaleStrict(t, q, y);
    } else {
      ScaleOrder(q, t, y);
    }
  }

  /** A value is off by more than 15 percent of a positive median; below zero nothing is ever off. */
  lemma PercentBand(v: real, med: real)
    ensures BeyondPercent(v, med) <==> med > 0.0 && (v < 0.85 * med || v > 1.15 * med)
  {
    if med > 0.0 {
      ScaledRatio(Abs(v - med), med, 0.15);
    } else if med < 0.0 {
      FlipRatio(Abs(v - med), med);
      ScaledRatio(-Abs(v - med), -med, 0.0);
    }
  }

  lemma FlipRatio(x: real, y: real)
    requires y != 0.0
    ensures (-x) / (-y) == x / y
  {
    var q := x / y;
    assert q * y == x;
    assert q * (-y) == -(q * y);
  }

  lemma NegatedRatio(x: real, y: real)
    requires y != 0.0
    ensures (-x) / y == -(x / y)
  {
    var q := x / y;
    assert q * y == x;
    assert (-q) * y == -(q * y);
  }

  lemma ZBand(v: real, med: real, spread: real)
    requires spread > 0.0
    ensures BeyondZ(v, med, spread) <==> 0.6745 * Abs(v - med) > 3.5 * spread
  {
    var x := 0.6745 * (v - med);
    ScaledRatio(x, spread, 3.5);
    ScaledRatio(-x, spread, 3.5);
    NegatedRatio(x, spread);
  }

  // ----- the median ----------------------------------------------------------------------

  /** How many values are below x. */
  function Less(s: seq<real>, x: real): nat {
    if s == [] then 0 else Less(s[1..], x) + if s[0] < x then 1 else 0
  }

  /** How many are above. */
  function More(s: seq<real>, x: real): nat {
    if s == [] then 0 else More(s[1..], x) + if s[0] > x then 1 else 0
  }

  lemma {:induction false} InsertCounts(y: real, s: seq<real>, x: real)
    ensures Less(Insert(y, s), x) == Less(s, x) + if y < x then 1 else 0
    ensures More(Insert(y, s), x) == More(s, x) + if y > x then 1 else 0
  {
    if s == [] || y <= s[0] {
      assert Insert(y, s)[1..] == s;
    } else {
      InsertCounts(y, s[1..], x);
      assert Insert(y, s)[1..] == Insert(y, s[1..]);
    }
  }

  lemma {:induction false} SortedCounts(s: seq<real>, x: real)
    ensures Less(Sorted(s), x) == Less(s, x) && More(Sorted(s), x) == More(s, x)
  {
    if s != [] {
      SortedCounts(s[1..], x);
      InsertCounts(s[0], Sorted(s[1..]), x);
    }
  }

  lemma {:induction false} LessAtMost(s: seq<real>, x: real, m: nat)
    requires m <= |s| && forall i :: m <= i < |s| ==> s[i] >= x
    ensures Less(s, x) <= m
  {
    if s != [] {
      LessAtMost(s[1..], x, if m == 0 then 0 else m - 1);
    }
  }

  lemma {:induction false} MoreAtMost(s: seq<real>, x: real, m: nat)
    requires m <= |s| && forall i :: 0 <= i < m ==> s[i] <= x
    ensures More(s, x) <= |s| - m
  {
    if s != [] {
      MoreAtMost(s[1..], x, if m == 0 then 0 else m - 1);
    }
  }

  lemma HalvesOf(s: seq<real>, h: nat, x: real)
    requires Ordered(s)
    requires (|s| == 2 * h + 1 && x == s[h]) || (|s| == 2 * h && h > 0 && s[h - 1] <= x <= s[h])
    ensures Less(s, x) <= h && More(s, x) <= h
  {
    LessAtMost(s, x, h);
    MoreAtMost(s, x, |s| - h);
  }

  lemma MedianOfOdd(values: seq<real>, h: nat)
    requires |values| == 2 * h + 1
    ensures Median(values) == Sorted(values)[h]
  {
    assert |values| / 2 == h;
  }

  /** At most half of the values are on each side of the median; for odd length it is one of them. */
  lemma MedianHalves(values: seq<real>)
    requires values != []
    ensures 2 * Less(values, Median(values)) <= |values| && 2 * More(values, Median(values)) <= |values|
    ensures |values| % 2 == 1 ==> Median(values) in values
  {
    var med, h := Median(values), |values| / 2;
    SortedIsOrdered(values);
    SortedCounts(values, med);
    if |values| % 2 == 1 {
      MedianOfOdd(values, h);
      var j := PositionInOriginal(values, h);
    } else {
      MedianOfEven(values, h);
    }
    HalvesOf(Sorted(values), h, med);
  }

  // ----- the other statistics ---------------------------------------------------------------

  lemma {:induction false} TotalAppend(a: seq<real>, b: seq<real>)
    ensures Total(a + b) == Total(a) + Total(b)
  {
    if b == [] {
      assert a + b == a;
    } else {
      assert (a + b)[..|a + b| - 1] == a + b[..|b| - 1];
      TotalAppend(a, b[..|b| - 1]);
    }
  }

  lemma MeanTimesCount(values: seq<real>)
    requires values != []
    ensures Mean(values) * |values| as real == Total(values)
    ensures |values| == 2 ==> Total(values) == values[0] + values[1]
  {
    if |values| == 2 {
      assert values == [values[0]] + [values[1]];
      TotalAppend([values[0]], [values[1]]);
    }
  }

  /** The spread is the median deviation unless that is zero. */
  lemma SpreadIsMedian(deviations: seq<real>)
    requires deviations != [] && Median(deviations) != 0.0
    ensures SpreadOf(deviations) == Median(deviations)
  {
  }

  /** Then it is the mean deviation. */
  lemma SpreadIsMean(deviations: seq<real>, mean: real)
    requires deviations != [] && Median(deviations) == 0.0 && mean * |deviations| as real == Total(deviations)
    ensures SpreadOf(deviations) == mean
  {
    MeanIs(Total(deviations), |deviations| as real, mean);
  }

  lemma MeanIs(total: real, n: real, mean: real)
    requires n > 0.0 && mean * n == total
    ensures total / n == mean
  {
  }

  /** The fences, by ranks n / 4 and 3 n / 4 of the sorted values. */
  lemma FenceBand(values: seq<real>, i: nat, n: nat)
    requires i < |values| == n
    ensures OutsideFences(values, i) <==>
            && n >= 4
            && var q1, q3 := Sorted(values)[n / 4], Sorted(values)[3 * n / 4];
               values[i] < q1 - 1.5 * (q3 - q1) || values[i] > q3 + 1.5 * (q3 - q1)
  {
  }

  /** Grubbs flags the run that is farthest from the mean, the last of them, when it is far enough. */
  lemma GrubbsBand(values: seq<real>, stdev: real, critical: real, i: nat)
    requires i < |values| && stdev >= 0.0
    ensures FarByGrubbs(values, stdev, critical, i) <==>
            && |values| >= 3 && stdev > 0.0 && Abs(values[i] - Mean(values)) > critical * stdev
            && (forall j :: 0 <= j < |values| ==> Abs(values[j] - Mean(values)) <= Abs(values[i] - Mean(values)))
            && forall j :: i < j < |values| ==> Abs(values[j] - Mean(values)) < Abs(values[i] - Mean(values))
  {
    if stdev > 0.0 {
      ScaledRatio(Abs(values[i] - Mean(values)), stdev, critical);
    }
  }

  /** Two votes mean two different detectors. */
  lemma TwoVotes(values: seq<real>, stdev: real, critical: real, i: nat)
    requires i < |values| && stdev >= 0.0
    ensures var z, f, p, g := FarByZ(values, i), OutsideFences(values, i), FarByPercent(values, i),
                              FarByGrubbs(values, stdev, critical, i);
            Votes(values, stdev, critical, i) >= CONSENSUS_MIN_METHODS <==>
            (z && f) || (z && p) || (z && g) || (f && p) || (f && g) || (p && g)
  {
  }

  // ----- the spread -------------------------------------------------------------------------

  lemma {:induction false} SumOfDeviations(s: seq<real>)
    requires forall i :: 0 <= i < |s| ==> s[i] >= 0.0
    ensures Total(s) >= 0.0 && (Total(s) == 0.0 <==> forall i :: 0 <= i < |s| ==> s[i] == 0.0)
  {
    if s != [] {
      var n := |s| - 1;
      SumOfDeviations(s[..n]);
      assert forall i :: 0 <= i < n ==> s[..n][i] == s[i];
    }
  }

  lemma MeanOfDeviations(s: seq<real>)
    requires s != [] && forall i :: 0 <= i < |s| ==> s[i] >= 0.0
    ensures Mean(s) >= 0.0 && (Mean(s) == 0.0 <==> forall i :: 0 <= i < |s| ==> s[i] == 0.0)
  {
    SumOfDeviations(s);
    var n := |s| as real;
    ScaledRatio(Total(s), n, 0.0);
    ScaledRatio(-Total(s), n, 0.0);
    NegatedRatio(Total(s), n);
  }

  /** The spread is zero only when all values are equal, so otherwise the z-score is defined. */
  lemma SpreadIsPositive(values: seq<real>)
    requires values != []
    ensures Spread(values) >= 0.0
    ensures Spread(values) == 0.0 <==> forall i :: 0 <= i < |values| ==> values[i] == Median(values)
  {
    var med := Median(values);
    var deviations := Deviations(values, med);
    MedianAtLeast(deviations, 0.0);
    MeanOfDeviations(deviations);
    assert forall i :: 0 <= i < |values| ==> (deviations[i] == 0.0 <==> values[i] == med);
    if forall i :: 0 <= i < |values| ==> values[i] == med {
      MedianOfEqual(deviations, 0.0);
    }
  }

  lemma MedianOfEqual(s: seq<real>, v: real)
    requires s != [] && forall i :: 0 <= i < |s| ==> s[i] == v
    ensures Median(s) == v
  {
    var r := Sorted(s);
    forall k: nat | k < |r|
      ensures r[k] == v
    {
      var j := PositionInOriginal(s, k);
    }
  }

  /** Which runs the first and the third detector flag, without a division. */
  lemma DetectorBands(values: seq<real>, i: nat)
    requires i < |values|
    ensures var med, spread := Median(values), Spread(values);
            && (FarByZ(values, i) <==>
                |values| >= 3 && spread > 0.0 && 0.6745 * Abs(values[i] - med) > 3.5 * spread)
            && (FarByPercent(values, i) <==>
                |values| >= 2 && med > 0.0 && (values[i] < 0.85 * med || values[i] > 1.15 * med))
  {
    SpreadIsPositive(values);
    PercentBand(values[i], Median(values));
    if Spread(values) > 0.0 {
      ZBand(values[i], Median(values), Spread(values));
    }
  }

  // ----- a run always survives -----------------------------------------------------------

  lemma Between(s: seq<real>, a: nat, k: nat, b: nat)
    requires Ordered(s) && a <= k <= b < |s|
    ensures !BeyondFences(s[k], s[a], s[b])
  {
    assert s[a] <= s[k] <= s[b];
  }

  lemma AtMedian(med: real, spread: real)
    ensures !BeyondZ(med, med, spread) && !BeyondPercent(med, med)
  {
    if spread != 0.0 {
      assert 0.6745 * (med - med) / spread == 0.0;
    }
  }

  /** The middle elements lie between the quartiles. */
  lemma MiddleInsideFences(values: seq<real>, a: nat, k: nat, b: nat, i: nat)
    requires |values| >= 3 && i < |values| && a == |values| / 4 && b == 3 * |values| / 4 && a <= k <= b
    requires values[i] == Sorted(values)[k]
    ensures !OutsideFences(values, i)
  {
    SortedIsOrdered(values);
    Between(Sorted(values), a, k, b);
  }

  lemma AtMedianNoVote(values: seq<real>, i: nat)
    requires i < |values| && values[i] == Median(values)
    ensures !FarByZ(values, i) && !FarByPercent(values, i)
  {
    AtMedian(Median(values), Spread(values));
  }

  /** A deviation that none is smaller than is no larger than the spread. */
  lemma SmallestDeviationIsNear(values: seq<real>, i: nat)
    requires i < |values|
    requires Nearest(values, i)
    ensures !FarByZ(values, i)
  {
    var med := Median(values);
    var deviations := Deviations(values, med);
    var d := Abs(values[i] - med);
    MedianAtLeast(deviations, d);
    var mad := Median(deviations);
    if mad == 0.0 {
      assert d == 0.0;
      AtMedianNoVote(values, i);
    } else {
      RatioBelow(values[i], med, mad);
    }
  }

  lemma RatioBelow(v: real, med: real, mad: real)
    requires mad > 0.0 && Abs(v - med) <= mad
    ensures !BeyondZ(v, med, mad)
  {
    var q := 0.6745 * (v - med) / mad;
    assert q * mad == 0.6745 * (v - med);
    if q > 0.6745 {
      ScaleStrict(0.6745, q, mad);
    } else if -q > 0.6745 {
      ScaleStrict(0.6745, -q, mad);
      assert (-q) * mad == -(q * mad);
    }
  }

  lemma MedianAtLeast(s: seq<real>, d: real)
    requires s != [] && forall i :: 0 <= i < |s| ==> s[i] >= d
    ensures Median(s) >= d
  {
    var r := Sorted(s);
    forall k: nat | k < |r|
      ensures r[k] >= d
    {
      var j := PositionInOriginal(s, k);
    }
  }

  /** In even lists the middle elements lie on both sides of the median and none lies nearer. */
  lemma NearMiddle(s: seq<real>, h: nat, m: nat, k: nat, med: real)
    requires Ordered(s) && k < |s| && |s| == 2 * h && med == (s[h - 1] + s[h]) / 2.0
    requires m == h - 1 || m == h
    ensures Abs(s[m] - med) <= Abs(s[k] - med)
  {
    assert s[h - 1] <= s[h];
    assert if k < h then s[k] <= s[h - 1] else s[h] <= s[k];
  }

  lemma MedianOfEven(values: seq<real>, h: nat)
    requires values != [] && |values| == 2 * h
    ensures Median(values) == (Sorted(values)[h - 1] + Sorted(values)[h]) / 2.0
  {
    assert |values| / 2 == h;
  }

  lemma FewVotes(values: seq<real>, stdev: real, critical: real, i: nat)
    requires i < |values| && stdev >= 0.0 && !OutsideFences(values, i) && !FarByZ(values, i)
    requires !FarByPercent(values, i) || !FarByGrubbs(values, stdev, critical, i)
    ensures Votes(values, stdev, critical, i) < 2
  {
  }

  predicate Nearest(values: seq<real>, i: nat)
    requires i < |values|
  {
    forall j :: 0 <= j < |values| ==> Abs(values[i] - Median(values)) <= Abs(values[j] - Median(values))
  }

  lemma MiddlesAreNearest(values: seq<real>, h: nat, m: nat, i: nat)
    requires |values| == 2 * h && i < |values| && (m == h - 1 || m == h) && values[i] == Sorted(values)[m]
    ensures Nearest(values, i)
  {
    var v, med := values[i], Median(values);
    forall j: nat | j < |values|
      ensures Abs(v - med) <= Abs(values[j] - med)
    {
      var k := PositionInSorted(values, j);
      SortedIsOrdered(values);
      MedianOfEven(values, h);
      NearMiddle(Sorted(values), h, m, k, med);
    }
  }

  lemma Quarters(n: int, h: int) returns (a: int, b: int)
    requires (n == 2 * h || n == 2 * h + 1) && n >= 3
    ensures a == n / 4 && b == 3 * n / 4 && 0 <= a <= h <= b < n
    ensures n == 2 * h ==> a <= h - 1
  {
    a, b := n / 4, 3 * n / 4;
  }

  lemma MiddleHasFewVotes(values: seq<real>, h: nat, k: nat, i: nat)
    requires |values| == 2 * h && h >= 2 && i < |values| && (k == h - 1 || k == h) && values[i] == Sorted(values)[k]
    ensures !OutsideFences(values, i) && !FarByZ(values, i)
  {
    var a, b := Quarters(|values|, h);
    MiddleInsideFences(values, a, k, b, i);
    MiddlesAreNearest(values, h, k, i);
    SmallestDeviationIsNear(values, i);
  }

  lemma MiddlesHaveFewVotes(values: seq<real>, h: nat, lo: nat, hi: nat)
    requires |values| == 2 * h && h >= 2 && lo < |values| && hi < |values|
    requires values[lo] == Sorted(values)[h - 1] && values[hi] == Sorted(values)[h]
    ensures !OutsideFences(values, lo) && !FarByZ(values, lo) && !OutsideFences(values, hi) && !FarByZ(values, hi)
    ensures lo == hi ==> !FarByPercent(values, lo)
  {
    MiddleHasFewVotes(values, h, h - 1, lo);
    MiddleHasFewVotes(values, h, h, hi);
    if lo == hi {
      EqualMiddles(values, h, lo);
    }
  }

  lemma NotBothDiscarded(values: seq<real>, stdev: real, critical: real, i: nat, j: nat)
    requires i < |values| && j < |values| && stdev >= 0.0
    requires !OutsideFences(values, i) && !FarByZ(values, i) && !OutsideFences(values, j) && !FarByZ(values, j)
    requires i == j ==> !FarByPercent(values, i)
    ensures Votes(values, stdev, critical, i) < 2 || Votes(values, stdev, critical, j) < 2
  {
    if FarByGrubbs(values, stdev, critical, i) && FarByGrubbs(values, stdev, critical, j) {
      OnlyOneFarthest(values, i, j);
    }
  }

  /** The two middle runs cannot both be discarded. */
  lemma OneOfTheMiddleSurvives(values: seq<real>, stdev: real, critical: real, h: nat, lo: nat, hi: nat)
    requires |values| == 2 * h && h >= 2 && lo < |values| && hi < |values| && stdev >= 0.0
    requires values[lo] == Sorted(values)[h - 1] && values[hi] == Sorted(values)[h]
    ensures Votes(values, stdev, critical, lo) < 2 || Votes(values, stdev, critical, hi) < 2
  {
    MiddlesHaveFewVotes(values, h, lo, hi);
    NotBothDiscarded(values, stdev, critical, lo, hi);
  }

  lemma EqualMiddles(values: seq<real>, h: nat, i: nat)
    requires |values| == 2 * h && i < |values|
    requires values[i] == Sorted(values)[h - 1] == Sorted(values)[h]
    ensures !FarByPercent(values, i)
  {
    MedianOfEven(values, h);
    AtMedianNoVote(values, i);
  }

  lemma MedianSurvives(values: seq<real>, stdev: real, critical: real, i: nat)
    requires |values| % 2 == 1 && |values| >= 3 && i < |values| && stdev >= 0.0 && values[i] == Median(values)
    ensures Votes(values, stdev, critical, i) < 2
  {
    var a, b := Quarters(|values|, |values| / 2);
    MiddleInsideFences(values, a, |values| / 2, b, i);
    AtMedianNoVote(values, i);
    FewVotes(values, stdev, critical, i);
  }

  /** No list of results is discarded whole: the median or one of the two middle values stays. */
  lemma SomeRunSurvives(values: seq<real>, stdev: real, critical: real) returns (i: nat)
    requires values != [] && stdev >= 0.0
    ensures i < |values|
    ensures |values| >= 3 ==> Votes(values, stdev, critical, i) < CONSENSUS_MIN_METHODS
    ensures |values| % 2 == 1 ==> values[i] == Median(values) == Sorted(values)[|values| / 2]
    ensures |values| % 2 == 0 ==> values[i] in Sorted(values)[|values| / 2 - 1..|values| / 2 + 1]
  {
    var s, h := Sorted(values), |values| / 2;
    var hi := PositionInOriginal(values, h);
    i := hi;
    if |values| % 2 == 1 {
      if |values| >= 3 {
        MedianSurvives(values, stdev, critical, i);
      }
    } else if |values| >= 4 {
      var lo := PositionInOriginal(values, h - 1);
      OneOfTheMiddleSurvives(values, stdev, critical, h, lo, hi);
      if Votes(values, stdev, critical, hi) >= 2 {
        i := lo;
      }
    }
    assert |values| % 2 == 0 ==> s[h - 1..h + 1] == [s[h - 1], s[h]];
  }

  // ----- what is kept --------------------------------------------------------------------

  /** The values at indices that are not discarded, in their order. */
  function Kept(values: seq<real>, outliers: set<nat>): seq<real> {
    if values == [] then []
    else
      Kept(values[..|values| - 1], outliers)
      + if |values| - 1 in outliers then [] else [values[|values| - 1]]
  }

  lemma {:induction false} KeptCount(values: seq<real>, outliers: set<nat>)
    ensures |Kept(values, outliers)| + |set i: nat | i < |values| && i in outliers| == |values|
  {
    if values != [] {
      var n := |values| - 1;
      KeptCount(values[..n], outliers);
      var before := set i: nat | i < n && i in outliers;
      var all := set i: nat | i < |values| && i in outliers;
      assert all == before + if n in outliers then {n} else {};
    }
  }

  function Discarded(values: seq<real>, stdev: real, critical: real): set<nat>
    requires stdev >= 0.0
  {
    set i: nat | i < |values| && Votes(values, stdev, critical, i) >= CONSENSUS_MIN_METHODS
  }

  /** With nothing discarded the values are kept in their order. */
  lemma {:induction false} KeptAll(values: seq<real>, outliers: set<nat>)
    requires forall i: nat :: i < |values| ==> i !in outliers
    ensures Kept(values, outliers) == values
  {
    if values != [] {
      KeptAll(values[..|values| - 1], outliers);
      assert values == values[..|values| - 1] + [values[|values| - 1]];
    }
  }

  /** Between kept values the discarded ones leave no trace. */
  lemma {:induction false} KeptAppend(a: seq<real>, b: seq<real>, outliers: set<nat>, shifted: set<nat>)
    requires forall i: nat :: i < |b| ==> (i in shifted <==> |a| + i in outliers)
    ensures Kept(a + b, outliers) == Kept(a, outliers) + Kept(b, shifted)
  {
    if b == [] {
      assert a + b == a;
    } else {
      assert (a + b)[..|a + b| - 1] == a + b[..|b| - 1];
      KeptAppend(a, b[..|b| - 1], outliers, shifted);
    }
  }

  lemma {:induction false} KeptMember(values: seq<real>, outliers: set<nat>, i: nat)
    requires i < |values| && i !in outliers
    ensures values[i] in Kept(values, outliers)
  {
    if i < |values| - 1 {
      KeptMember(values[..|values| - 1], outliers, i);
    }
  }

  /** Filtering keeps at least one run, and counts every run as kept or discarded. */
  lemma FilterKeepsSome(values: seq<real>, stdev: real, critical: real)
    requires stdev >= 0.0
    ensures var outliers := Discarded(values, stdev, critical);
            && |Kept(values, outliers)| + |outliers| == |values|
            && (values != [] ==> Kept(values, outliers) != [])
  {
    var outliers := Discarded(values, stdev, critical);
    KeptCount(values, outliers);
    assert outliers == set i: nat | i < |values| && i in outliers;
    if values != [] {
      var i := SomeRunSurvives(values, stdev, critical);
      assert i !in outliers;
      KeptMember(values, outliers, i);
    }
  }

  method CleanValues(values: seq<real>, stdev: real, critical: real) returns (clean: seq<real>, discarded: nat)
    requires stdev >= 0.0
    ensures clean == Kept(values, Discarded(values, stdev, critical))
    ensures discarded == |Discarded(values, stdev, critical)|
    ensures |clean| + discarded == |values|
    ensures values != [] ==> clean != []
  {
    var outliers := FindConsensusOutliers(values, stdev, critical);
    assert outliers == Discarded(values, stdev, critical);
    discarded := |outliers|;
    clean := [];
    for i := 0 to |values|
      invariant clean == Kept(values[..i], outliers)
    {
      assert values[..i + 1][..i] == values[..i];
      if i !in outliers {
        clean := clean + [values[i]];
      }
    }
    assert values[..|values|] == values;
    FilterKeepsSome(values, stdev, critical);
  }
}
