/**
  From command results to what is reported: the results of all workers, merged,
  encoded, decoded and queried, against the plain list of latencies.
 */
module EndToEnd {
  import opened Arithmetic
  import opened HdrLayout
  import opened HdrCounts
  import opened HdrHistogram
  import opened Metrics
  import opened CountsCodec
  import opened Wrappers

  /** The latencies of the successful results of one command. */
  function Latencies(rs: seq<CommandResult>, name: Name): seq<nat> {
    if rs == [] then []
    else
      var r := rs[|rs| - 1];
      Latencies(rs[..|rs| - 1], name) + if r.name == name && r.success then [r.latencyMicros] else []
  }

  /** The latencies as the histogram is given them. */
  function ClampAll(xs: seq<nat>): (ys: seq<nat>)
    ensures |ys| == |xs| && forall i :: 0 <= i < |xs| ==> ys[i] == Clamp(xs[i])
  {
    seq(|xs|, i requires 0 <= i < |xs| => Clamp(xs[i]))
  }

  lemma RecordOne(l: Layout, s: Summary, r: CommandResult, name: Name, xs: seq<nat>)
    requires Get(s, name).counts == FromValues(l, ClampAll(xs)) && Get(s, name).samples == |xs|
    ensures var ys := xs + if r.name == name && r.success then [r.latencyMicros] else [];
            && Get(Record(l, s, r), name).counts == FromValues(l, ClampAll(ys))
            && Get(Record(l, s, r), name).samples == |ys|
  {
    if r.name == name && r.success {
      FromValuesLast(l, ClampAll(xs), Clamp(r.latencyMicros));
      assert ClampAll(xs + [r.latencyMicros]) == ClampAll(xs) + [Clamp(r.latencyMicros)];
    } else {
      assert xs + [] == xs;
    }
  }

  lemma {:induction false} CommandHoldsLatencies(l: Layout, rs: seq<CommandResult>, name: Name)
    ensures Get(FromResults(l, rs), name).counts == FromValues(l, ClampAll(Latencies(rs, name)))
    ensures Get(FromResults(l, rs), name).samples == |Latencies(rs, name)|
  {
    if rs != [] {
      var front, r := rs[..|rs| - 1], rs[|rs| - 1];
      CommandHoldsLatencies(l, front, name);
      RecordOne(l, FromResults(l, front), r, name, Latencies(front, name));
    }
  }

  lemma ClampedAreTracked(l: Layout, xs: seq<nat>)
    requires Tracks(l)
    ensures Tracked(l, ClampAll(xs))
  {
  }

  /** What the merged collector holds for a command is decided by the latencies alone. */
  lemma MergedCommand(l: Layout, workers: seq<Worker>, all: seq<CommandResult>, name: Name)
    requires Tracks(l) && multiset(AllResults(workers)) == multiset(all)
    ensures Get(MergeAll(l, workers), name).counts == FromValues(l, ClampAll(Latencies(all, name)))
    ensures Get(MergeAll(l, workers), name).samples == |Latencies(all, name)|
  {
    MergeOrderIrrelevant(l, workers, all);
    CommandHoldsLatencies(l, all, name);
  }

  /** Up to 600 s the clamped latencies below a value are the latencies below it. */
  lemma {:induction false} ClampedBelow(xs: seq<nat>, v: int)
    ensures NumBelow(ClampAll(xs), v) == if v <= 600_000_000 then NumBelow(xs, v) else |xs|
  {
    if xs != [] {
      var front, x := xs[..|xs| - 1], xs[|xs| - 1];
      ClampedBelow(front, v);
      ClampKeepsTracked(x);
      assert ClampAll(xs)[..|xs| - 1] == ClampAll(front);
    }
  }

  /** The clamped latency of a rank is the latency of that rank, clamped. */
  lemma ClampedRank(xs: seq<nat>, k: int, x: nat)
    requires IsKthSmallest(xs, k, x)
    ensures IsKthSmallest(ClampAll(xs), k, Clamp(x))
  {
    var i :| 0 <= i < |xs| && xs[i] == x;
    assert ClampAll(xs)[i] == Clamp(x);
    ClampKeepsTracked(x);
    ClampedBelow(xs, Clamp(x));
    ClampedBelow(xs, Clamp(x) + 1);
    NumBelowMonotone(xs, Clamp(x), x);
  }

  /** The top of the bucket of 600 s, in the shared layout. */
  lemma TopOfLongest(l: Layout, v: nat)
    requires l.unit == 0 && l.half == 10 && v == 600_000_000
    ensures l.HighestEquivalent(v) == 600_309_759
  {
    assert Pow2(10) == 1024;
    Pow2Add(9, 10);
    assert Pow2(9) == 512;
    l.CellOf(v, 19, 1144);
  }

  /** The percentile of a histogram of clamped latencies, from the latencies. */
  lemma PercentileOfLatencies(l: Layout, xs: seq<nat>, maxValue: int, p: real) returns (x: nat)
    requires l.unit == 0 && l.half == 10 && Tracks(l) && xs != []
    ensures AtPercentile(xs, Percent(p), x)
    ensures var v := ValueAtPercentile(l, FromValues(l, ClampAll(xs)), |xs|, maxValue, p);
            if x <= 600_000_000 then x <= v && (v - x) * 1024 <= x else v == 600_309_759
  {
    var limit := Bounded(xs);
    x := KthExists(xs, RankFor(p, |xs|), limit);
    RankIsAtPercentile(xs, p, x);
    ClampedRank(xs, RankFor(p, |xs|), x);
    ClampedAreTracked(l, xs);
    PercentileIsRank(l, ClampAll(xs), maxValue, p, Clamp(x));
    ClampKeepsTracked(x);
    assert Pow2(10) == 1024;
    if x > 600_000_000 {
      TopOfLongest(l, Clamp(x));
    }
  }

  /**
    However the results were spread over workers, the merged percentile p is that of
    the list of latencies: at least the latency that p percent do not exceed and fewer
    than p percent fall short of, and above it by at most one part in 1024. Latencies
    above 600 s are reported as the top of the bucket of 600 s.
   */
  lemma MergedPercentile(l: Layout, workers: seq<Worker>, all: seq<CommandResult>, name: Name, maxValue: int, p: real)
      returns (x: nat)
    requires l == LayoutFor(1, 600_000_000, 3) && multiset(AllResults(workers)) == multiset(all)
    requires Latencies(all, name) != []
    ensures AtPercentile(Latencies(all, name), Percent(p), x)
    ensures var m := Get(MergeAll(l, workers), name);
            var v := ValueAtPercentile(l, m.counts, m.samples, maxValue, p);
            if x <= 600_000_000 then x <= v && (v - x) * 1024 <= x else v == 600_309_759
  {
    DefaultTracks(l);
    DefaultLayout();
    MergedCommand(l, workers, all, name);
    x := PercentileOfLatencies(l, Latencies(all, name), maxValue, p);
  }

  /**
    The payload bytes of a merged command are those of one histogram fed all its
    latencies, and the decoder reads that histogram back from them.
   */
  lemma MergedPayload(l: Layout, workers: seq<Worker>, all: seq<CommandResult>, name: Name, relevant: nat)
    requires Tracks(l) && multiset(AllResults(workers)) == multiset(all)
    requires IsRelevantLength(Get(MergeAll(l, workers), name).counts, relevant)
    ensures var merged := Payload(1, 600_000_000, 3, Get(MergeAll(l, workers), name).counts);
            var direct := Payload(1, 600_000_000, 3, FromValues(l, ClampAll(Latencies(all, name))));
            && EncodeV2(merged, relevant) == EncodeV2(direct, relevant)
            && DecodeV2(EncodeV2(merged, relevant)) == Ok(direct)
  {
    MergedCommand(l, workers, all, name);
    var direct := Payload(1, 600_000_000, 3, FromValues(l, ClampAll(Latencies(all, name))));
    PayloadRoundTrip(direct, relevant);
  }
}
