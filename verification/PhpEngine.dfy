/**
  The PHP engine's static partition of a phase over forked workers: strided keys,
  split budgets, and the worker-to-parent transfer of metrics.
 */
module PhpEngine {
  import opened Arithmetic
  import opened FixedWidth
  import opened JavaRandomPorts
  import Lcg
  import opened StridedKeys
  import opened HdrLayout
  import opened HdrCounts
  import H = HdrHistogram
  import C = Collectors
  import opened M = Metrics
  import opened Wrappers

  // ----- keys --------------------------------------------------------------------

  class KeyGenerator {
    const keysCount: nat
    const sequential: bool
    const workerIndex: nat
    const workerCount: nat
    const seed: int
    const random: SplitRandom
    var sequentialStep: nat

    ghost predicate Valid()
      reads this, random
    {
      random.Valid() && 0 < keysCount && (!sequential ==> keysCount < TWO31) && workerCount > 0
    }

    constructor ForWorker(keysCount: nat, uniform: bool, seedBase: int, workerIndex: int, workerCount: int)
      requires 0 < keysCount && (uniform ==> keysCount < TWO31)
      ensures Valid() && fresh(random) && this.keysCount == keysCount && sequential == !uniform
      ensures this.workerIndex == if workerIndex >= 0 then workerIndex else 0
      ensures this.workerCount == if workerCount >= 1 then workerCount else 1
      ensures sequentialStep == 0 && seed == if uniform then seedBase + workerIndex else seedBase
      ensures random.seed == Lcg.Scramble(if uniform then seedBase + workerIndex else seedBase)
    {
      this.keysCount := keysCount;
      sequential := !uniform;
      this.workerIndex := if workerIndex > 0 then workerIndex else 0;
      this.workerCount := if workerCount > 1 then workerCount else 1;
      sequentialStep := 0;
      var s := if uniform then seedBase + workerIndex else seedBase;
      seed := s;
      random := new SplitRandom(s);
    }

    method NextKey() returns (keyIndex: int)
      requires Valid()
      modifies this, random
      ensures Valid() && 0 <= keyIndex < keysCount
      ensures sequential ==> keyIndex == (workerIndex + old(sequentialStep) * workerCount) % keysCount
      ensures sequential ==> sequentialStep == old(sequentialStep) + 1 && random.seed == old(random.seed)
      ensures !sequential ==> sequentialStep == old(sequentialStep)
      ensures !sequential ==> Lcg.NextInt(old(random.seed), keysCount) == Lcg.Drawn(keyIndex, random.seed)
    {
      if sequential {
        keyIndex := StridedKey(workerIndex, workerCount, sequentialStep, keysCount);
        sequentialStep := sequentialStep + 1;
      } else {
        var drawn := random.NextInt(keysCount);
        keyIndex := drawn.value;
      }
      DivModUnique(keyIndex, keysCount, 0, keyIndex);
      keyIndex := keyIndex % keysCount;
    }

    method Reset()
      requires Valid()
      modifies this, random
      ensures Valid() && sequentialStep == 0 && random.seed == Lcg.Scramble(seed)
    {
      sequentialStep := 0;
      random.SetSeed(seed);
    }
  }

  /** The request loop of a worker whose every command consumes a key. */
  method RunWorker(keyGen: KeyGenerator, target: nat) returns (keys: seq<int>)
    requires keyGen.Valid() && keyGen.sequential && keyGen.sequentialStep == 0
    modifies keyGen, keyGen.random
    ensures |keys| == target
    ensures forall j :: 0 <= j < target ==>
              keys[j] == StridedKey(keyGen.workerIndex, keyGen.workerCount, j, keyGen.keysCount)
    ensures multiset(keys) == Emitted(keyGen.workerIndex, keyGen.workerCount, keyGen.keysCount, target)
  {
    keys := [];
    var done := 0;
    while done < target
      invariant 0 <= done <= target && |keys| == done
      invariant keyGen.Valid() && keyGen.sequentialStep == done
      invariant forall j :: 0 <= j < done ==>
                  keys[j] == StridedKey(keyGen.workerIndex, keyGen.workerCount, j, keyGen.keysCount)
      invariant multiset(keys) == Emitted(keyGen.workerIndex, keyGen.workerCount, keyGen.keysCount, done)
    {
      var key := keyGen.NextKey();
      keys := keys + [key];
      done := done + 1;
    }
  }

  // ----- metrics from worker to parent ---------------------------------------------

  /** serializeCollector's loop over one histogram: the positive counts below the relevant length. */
  method SerializeCounts(h: H.Histogram) returns (counts: Counts)
    requires h.Valid()
    ensures counts == h.counts
  {
    var len := h.RelevantLength();
    counts := map[];
    var i := 0;
    while i < len
      invariant 0 <= i <= len
      invariant forall k <- counts :: k < i && k in h.counts
      invariant forall k <- h.counts :: k < i ==> k in counts && counts[k] == h.counts[k]
    {
      var c := h.RawCountAt(i);
      if c > 0 {
        counts := counts[i := c];
      }
      i := i + 1;
    }
    assert counts.Keys == h.counts.Keys;
  }

  /** The sparse counts re-recorded at their buckets' floors. */
  function Rebuilt(l: Layout, counts: Counts): Counts {
    MergeFirst(l, map[], counts, l.CountsLen())
  }

  lemma RebuiltIsLossless(l: Layout, counts: Counts)
    requires Normal(counts) && Within(counts, l.CountsLen())
    ensures Rebuilt(l, counts) == counts
  {
    MergeIsLossless(l, map[], counts);
    NormalEqual(Plus(map[], counts), counts);
  }

  /** mergePartial's loop: re-record every count at its bucket's floor, in any order of the indices. */
  method RebuildHistogram(layout: Layout, counts: Counts) returns (h: H.Histogram)
    requires layout.buckets >= 1 && Normal(counts) && Within(counts, layout.CountsLen())
    ensures fresh(h) && h.Valid() && h.layout == layout
    ensures h.counts == Rebuilt(layout, counts) == counts && h.total == Below(counts, layout.CountsLen())
  {
    RebuiltIsLossless(layout, counts);
    h := new H.Histogram.WithLayout(layout);
    BelowEmpty(layout.CountsLen());
    var pending := counts.Keys;
    while pending != {}
      invariant pending <= counts.Keys && h.Valid() && fresh(h)
      invariant h.counts == map k | k in counts && k !in pending :: counts[k]
      invariant h.total == Below(h.counts, layout.CountsLen())
      decreases pending
    {
      var index :| index in pending;
      layout.IndexOfFloor(index);
      BelowAdd(h.counts, index, counts[index], layout.CountsLen());
      h.RecordValueWithCount(layout.ValueFromIndex(index), counts[index]);
      pending := pending - {index};
    }
  }

  /** A worker's payload: per command the two counters and the sparse counts. */
  datatype CommandPayload = CommandPayload(requests: nat, errors: nat, counts: Counts)

  datatype Payload = Payload(
    totalRequests: nat,
    totalErrors: nat,
    start: Option<int>,
    stop: Option<int>,
    commands: map<Name, CommandPayload>)

  function Serialize(s: Summary): Payload {
    Payload(s.totalRequests, s.totalErrors, s.start, s.stop,
      map n | n in s.commands ::
        CommandPayload(s.commands[n].requests, s.commands[n].errors, s.commands[n].counts))
  }

  /** ingestCommand on a fresh command: the rebuilt histogram is merged when it holds samples. */
  function Ingest(l: Layout, p: CommandPayload): CommandStats {
    var rebuilt := Rebuilt(l, p.counts);
    MergeStats(l, NO_STATS, CommandStats(p.requests, p.errors, rebuilt, Below(rebuilt, l.CountsLen())))
  }

  /** The collector that mergePartial rebuilds; it has no window. */
  function Partial(l: Layout, p: Payload): Summary {
    Summary(map n | n in p.commands :: Ingest(l, p.commands[n]), p.totalRequests, p.totalErrors, None, None)
  }

  /** mergePartial: widen the parent's window, then merge the rebuilt collector. */
  function MergePartial(l: Layout, s: Summary, p: Payload): Summary {
    var widened := s.(start := Earlier(s.start, p.start), stop := Later(s.stop, p.stop));
    Merge(l, widened, Partial(l, p))
  }

  lemma IngestRestores(l: Layout, m: CommandStats)
    requires StatsConsistent(l, m)
    ensures Ingest(l, CommandPayload(m.requests, m.errors, m.counts)) == m
  {
    RebuiltIsLossless(l, m.counts);
    NoStatsConsistent(l);
    MergeStatsIsCombine(l, NO_STATS, m);
    StatsUnit(m);
  }

  /** Sending a collector across processes loses nothing: the parent merges as if it had the worker's own. */
  lemma TransferIsLossless(l: Layout, s: Summary, worker: Summary)
    requires Consistent(l, worker)
    ensures MergePartial(l, s, Serialize(worker)) == Merge(l, s, worker)
  {
    PartialRestores(l, worker);
    WidenThenMerge(l, s, worker);
  }

  lemma PartialRestores(l: Layout, worker: Summary)
    requires Consistent(l, worker)
    ensures Partial(l, Serialize(worker)) == worker.(start := None, stop := None)
  {
    var p := Serialize(worker);
    forall n | n in worker.commands
      ensures Ingest(l, p.commands[n]) == worker.commands[n]
    {
      IngestRestores(l, worker.commands[n]);
    }
    assert Partial(l, p).commands == worker.commands;
  }

  /** Widening first and merging without a window is merging. */
  lemma WidenThenMerge(l: Layout, s: Summary, worker: Summary)
    ensures Merge(l, s.(start := Earlier(s.start, worker.start), stop := Later(s.stop, worker.stop)),
                  worker.(start := None, stop := None)) == Merge(l, s, worker)
  {
    var widened := s.(start := Earlier(s.start, worker.start), stop := Later(s.stop, worker.stop));
    var partial := worker.(start := None, stop := None);
    forall name: Name
      ensures Get(widened, name) == Get(s, name)
    {
    }
    assert Merge(l, widened, partial).commands == Merge(l, s, worker).commands;
  }

  /** The parent after receiving the payloads of these workers, in this order. */
  function ReceiveAll(l: Layout, workers: seq<Worker>): Summary {
    if workers == [] then EMPTY
    else
      MergePartial(l, ReceiveAll(l, workers[..|workers| - 1]), Serialize(workers[|workers| - 1].Collected(l)))
  }

  /** Any number of worker processes: the parent ends with what merging their collectors gives. */
  lemma {:induction false} ReceiveAllIsMergeAll(l: Layout, workers: seq<Worker>)
    requires Tracks(l)
    ensures ReceiveAll(l, workers) == MergeAll(l, workers)
  {
    if workers != [] {
      var front, w := workers[..|workers| - 1], workers[|workers| - 1];
      ReceiveAllIsMergeAll(l, front);
      FromResultsConsistent(l, w.results);
      TransferIsLossless(l, ReceiveAll(l, front), w.Collected(l));
    }
  }

  /** And so with what one collector holds that was fed all the results. */
  lemma TransfersLoseNothing(l: Layout, workers: seq<Worker>, all: seq<CommandResult>)
    requires Tracks(l) && multiset(AllResults(workers)) == multiset(all)
    ensures SameData(ReceiveAll(l, workers), FromResults(l, all))
    ensures IsEarliest(workers, ReceiveAll(l, workers).start) && IsLatest(workers, ReceiveAll(l, workers).stop)
  {
    ReceiveAllIsMergeAll(l, workers);
    MergeOrderIrrelevant(l, workers, all);
  }

  // ----- the objects on both sides -------------------------------------------------------

  predicate Transferable(l: Layout, p: Payload) {
    forall n <- p.commands :: Normal(p.commands[n].counts) && Within(p.commands[n].counts, l.CountsLen())
  }

  ghost function Outside(all: map<Name, CommandPayload>, pending: set<Name>): map<Name, CommandPayload> {
    map n | n in all.Keys - pending :: all[n]
  }

  lemma OutsideStep(all: map<Name, CommandPayload>, pending: set<Name>, name: Name)
    requires name in pending && name in all
    ensures Outside(all, pending - {name}) == Outside(all, pending)[name := all[name]]
  {
  }

  /** serializeCollector. */
  method SerializeCollector(c: C.Collector) returns (p: Payload)
    requires c.Valid()
    ensures p == Serialize(c.View())
  {
    ghost var all := Serialize(c.View()).commands;
    var commands: map<Name, CommandPayload> := map[];
    var pending := c.table.commands.Keys;
    assert Outside(all, pending) == map[];
    while pending != {}
      invariant pending <= c.table.commands.Keys
      invariant commands == Outside(all, pending)
      decreases pending
    {
      var name :| name in pending;
      var metrics := c.table.commands[name];
      var counts := SerializeCounts(metrics.histogram);
      OutsideStep(all, pending, name);
      commands := commands[name := CommandPayload(metrics.requests, metrics.errors, counts)];
      pending := pending - {name};
    }
    p := Payload(c.totalRequests, c.totalErrors, c.start, c.stop, commands);
  }

  method RebuildCommand(partial: C.Collector, name: Name, cmd: CommandPayload)
    requires partial.Valid() && name !in partial.View().commands
    requires Normal(cmd.counts) && Within(cmd.counts, partial.layout.CountsLen())
    modifies partial.Repr()
    ensures partial.Valid() && fresh(partial.table.Repr - old(partial.table.Repr))
    ensures partial.View() ==
            old(partial.View()).(commands := old(partial.View()).commands[name := Ingest(partial.layout, cmd)])
  {
    var histogram := RebuildHistogram(partial.layout, cmd.counts);
    partial.IngestCommand(name, cmd.requests, cmd.errors, histogram);
  }

  /** The commands rebuilt so far. */
  ghost function Built(l: Layout, p: Payload, pending: set<Name>): map<Name, CommandStats> {
    map n | n in p.commands.Keys - pending :: Ingest(l, p.commands[n])
  }

  lemma NothingBuilt(l: Layout, p: Payload)
    ensures Built(l, p, p.commands.Keys) == map[]
  {
  }

  lemma AllBuilt(l: Layout, p: Payload)
    ensures Built(l, p, {}) == Partial(l, p).commands
  {
  }

  lemma BuiltStep(l: Layout, p: Payload, pending: set<Name>, name: Name)
    requires name in pending && name in p.commands
    ensures name !in Built(l, p, pending)
    ensures Built(l, p, pending - {name}) == Built(l, p, pending)[name := Ingest(l, p.commands[name])]
  {
  }

  /** The loop of mergePartial: rebuild each histogram and take it in. */
  method RebuildPartial(layout: Layout, p: Payload) returns (partial: C.Collector)
    requires layout.buckets >= 1 && Transferable(layout, p)
    ensures fresh(partial.Repr()) && partial.Valid() && partial.layout == layout
    ensures partial.View() == Partial(layout, p)
  {
    partial := new C.Collector(layout);
    var pending := p.commands.Keys;
    NothingBuilt(layout, p);
    while pending != {}
      invariant pending <= p.commands.Keys
      invariant fresh(partial.Repr()) && partial.Valid() && partial.layout == layout
      invariant partial.View() == EMPTY.(commands := Built(layout, p, pending))
      decreases pending
    {
      var name :| name in pending;
      BuiltStep(layout, p, pending, name);
      RebuildCommand(partial, name, p.commands[name]);
      pending := pending - {name};
    }
    partial.IngestTotals(p.totalRequests, p.totalErrors);
    AllBuilt(layout, p);
  }

  /** mergePartial on the parent's collector. */
  method MergePartialInto(collector: C.Collector, p: Payload)
    requires collector.Valid() && Transferable(collector.layout, p)
    modifies collector.Repr()
    ensures collector.Valid() && fresh(collector.table.Repr - old(collector.table.Repr))
    ensures collector.View() == MergePartial(collector.layout, old(collector.View()), p)
  {
    var partial := RebuildPartial(collector.layout, p);
    collector.WidenTo(p.start, p.stop);
    collector.MergeFrom(partial);
  }
}
