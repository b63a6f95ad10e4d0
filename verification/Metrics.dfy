/**
  Metrics as values: what a collector holds after a sequence of command results,
  and why the distribution of results over workers and the order of merging do
  not matter.
 */
module Metrics {
  import opened Arithmetic
  import opened HdrLayout
  import opened HdrCounts
  import opened HdrHistogram
  import opened Wrappers

  const MAX_TRACKABLE_MICROS := 600_000_000

  /** The layout tracks every clamped latency. */
  predicate Tracks(l: Layout) {
    l.buckets >= 1 && MAX_TRACKABLE_MICROS < Pow2(l.unit + l.half + l.buckets)
  }

  lemma DefaultTracks(l: Layout)
    requires l == LayoutFor(1, 600_000_000, 3)
    ensures Tracks(l)
  {
    DefaultLayout();
  }

  /** A command's name. */
  datatype Name = Name(text: string)

  datatype CommandResult = CommandResult(name: Name, success: bool, latencyMicros: nat)

  /** Per-command counters; samples is the histogram's total. */
  datatype CommandStats = CommandStats(requests: nat, errors: nat, counts: Counts, samples: nat)

  const NO_STATS := CommandStats(0, 0, map[], 0)

  datatype Summary = Summary(
    commands: map<Name, CommandStats>,
    totalRequests: nat,
    totalErrors: nat,
    start: Option<int>,
    stop: Option<int>)

  const EMPTY := Summary(map[], 0, 0, None, None)

  function Get(s: Summary, name: Name): CommandStats {
    if name in s.commands then s.commands[name] else NO_STATS
  }

  function Clamp(latencyMicros: nat): nat {
    if latencyMicros > MAX_TRACKABLE_MICROS then MAX_TRACKABLE_MICROS else latencyMicros
  }

  /** A latency of at most 600 s is recorded as it is, a longer one as 600 s. */
  lemma ClampKeepsTracked(latencyMicros: nat)
    ensures latencyMicros <= 600_000_000 ==> Clamp(latencyMicros) == latencyMicros
    ensures latencyMicros > 600_000_000 ==> Clamp(latencyMicros) == 600_000_000
  {
  }

  function RecordStats(l: Layout, m: CommandStats, r: CommandResult): CommandStats {
    if r.success then
      m.(requests := m.requests + 1,
         counts := Add(m.counts, l.IndexFor(Clamp(r.latencyMicros)), 1),
         samples := m.samples + 1)
    else
      m.(requests := m.requests + 1, errors := m.errors + 1)
  }

  function Record(l: Layout, s: Summary, r: CommandResult): Summary {
    s.(totalRequests := s.totalRequests + 1,
       totalErrors := s.totalErrors + if r.success then 0 else 1,
       commands := s.commands[r.name := RecordStats(l, Get(s, r.name), r)])
  }

  /** mergeFrom of one command: the histogram is merged only when it holds samples. */
  function MergeStats(l: Layout, m: CommandStats, other: CommandStats): CommandStats {
    var len := l.CountsLen();
    m.(requests := m.requests + other.requests,
       errors := m.errors + other.errors,
       counts := if other.samples > 0 then MergeFirst(l, m.counts, other.counts, len) else m.counts,
       samples := if other.samples > 0 then m.samples + Below(other.counts, len) else m.samples)
  }

  function Earlier(a: Option<int>, b: Option<int>): Option<int> {
    if b.Some? && (a.None? || b.value < a.value) then b else a
  }

  function Later(a: Option<int>, b: Option<int>): Option<int> {
    if b.Some? && (a.None? || b.value > a.value) then b else a
  }

  function Merge(l: Layout, s: Summary, other: Summary): Summary {
    Summary(
      map name | name in s.commands.Keys + other.commands.Keys ::
        if name in other.commands then MergeStats(l, Get(s, name), other.commands[name]) else s.commands[name],
      s.totalRequests + other.totalRequests,
      s.totalErrors + other.totalErrors,
      Earlier(s.start, other.start),
      Later(s.stop, other.stop))
  }

  // ----- consistency -------------------------------------------------------------

  predicate StatsConsistent(l: Layout, m: CommandStats) {
    && Normal(m.counts) && Within(m.counts, l.CountsLen())
    && m.samples == Below(m.counts, l.CountsLen())
    && m.requests == m.errors + m.samples
  }

  predicate Consistent(l: Layout, s: Summary) {
    forall name <- s.commands :: StatsConsistent(l, s.commands[name])
  }

  lemma ClampIsTracked(l: Layout, latencyMicros: nat)
    requires Tracks(l)
    ensures l.IndexFor(Clamp(latencyMicros)) < l.CountsLen()
  {
    l.TrackableRange(Clamp(latencyMicros));
  }

  lemma NoStatsConsistent(l: Layout)
    ensures StatsConsistent(l, NO_STATS)
  {
    BelowEmpty(l.CountsLen());
  }

  lemma RecordStatsConsistent(l: Layout, m: CommandStats, r: CommandResult)
    requires Tracks(l) && StatsConsistent(l, m)
    ensures StatsConsistent(l, RecordStats(l, m, r))
  {
    ClampIsTracked(l, r.latencyMicros);
    BelowAdd(m.counts, l.IndexFor(Clamp(r.latencyMicros)), 1, l.CountsLen());
  }

  // ----- combination: the commutative monoid behind merging ------------------------

  function CombineStats(a: CommandStats, b: CommandStats): CommandStats {
    CommandStats(a.requests + b.requests, a.errors + b.errors, Plus(a.counts, b.counts), a.samples + b.samples)
  }

  function Combine(a: Summary, b: Summary): Summary {
    Summary(
      map name | name in a.commands.Keys + b.commands.Keys :: CombineStats(Get(a, name), Get(b, name)),
      a.totalRequests + b.totalRequests,
      a.totalErrors + b.totalErrors,
      Earlier(a.start, b.start),
      Later(a.stop, b.stop))
  }

  lemma PlusCommutes(a: Counts, b: Counts)
    ensures Plus(a, b) == Plus(b, a)
  {
  }

  lemma PlusAssociates(a: Counts, b: Counts, c: Counts)
    ensures Plus(Plus(a, b), c) == Plus(a, Plus(b, c))
  {
    var p, q := Plus(Plus(a, b), c), Plus(a, Plus(b, c));
    assert p.Keys == a.Keys + b.Keys + c.Keys == q.Keys;
    forall i | i in p
      ensures p[i] == q[i]
    {
      assert At(Plus(a, b), i) == At(a, i) + At(b, i);
      assert At(Plus(b, c), i) == At(b, i) + At(c, i);
    }
  }

  lemma PlusUnit(a: Counts)
    ensures Plus(a, map[]) == a == Plus(map[], a)
  {
  }

  lemma StatsCommute(a: CommandStats, b: CommandStats)
    ensures CombineStats(a, b) == CombineStats(b, a)
  {
    PlusCommutes(a.counts, b.counts);
  }

  lemma StatsAssociate(a: CommandStats, b: CommandStats, c: CommandStats)
    ensures CombineStats(CombineStats(a, b), c) == CombineStats(a, CombineStats(b, c))
  {
    PlusAssociates(a.counts, b.counts, c.counts);
  }

  lemma StatsUnit(a: CommandStats)
    ensures CombineStats(a, NO_STATS) == a == CombineStats(NO_STATS, a)
  {
    PlusUnit(a.counts);
  }

  lemma GetCombine(a: Summary, b: Summary, name: Name)
    ensures Get(Combine(a, b), name) == CombineStats(Get(a, name), Get(b, name))
  {
    if name in a.commands.Keys + b.commands.Keys {
      assert name in Combine(a, b).commands;
    } else {
      assert name !in Combine(a, b).commands;
      StatsUnit(NO_STATS);
    }
  }

  lemma SameSummary(a: Summary, b: Summary)
    requires a.commands.Keys == b.commands.Keys
    requires forall name <- a.commands.Keys :: Get(a, name) == Get(b, name)
    requires a.totalRequests == b.totalRequests && a.totalErrors == b.totalErrors
    requires a.start == b.start && a.stop == b.stop
    ensures a == b
  {
    forall name | name in a.commands
      ensures a.commands[name] == b.commands[name]
    {
      assert Get(a, name) == Get(b, name);
    }
    assert a.commands == b.commands;
  }

  lemma CombineCommutes(a: Summary, b: Summary)
    ensures Combine(a, b) == Combine(b, a)
  {
    forall name | name in Combine(a, b).commands
      ensures Get(Combine(a, b), name) == Get(Combine(b, a), name)
    {
      GetCombine(a, b, name);
      GetCombine(b, a, name);
      StatsCommute(Get(a, name), Get(b, name));
    }
    SameSummary(Combine(a, b), Combine(b, a));
  }

  lemma GetAssociates(a: Summary, b: Summary, c: Summary, name: Name)
    ensures Get(Combine(Combine(a, b), c), name) == Get(Combine(a, Combine(b, c)), name)
  {
    GetCombine(Combine(a, b), c, name);
    GetCombine(a, b, name);
    GetCombine(a, Combine(b, c), name);
    GetCombine(b, c, name);
    StatsAssociate(Get(a, name), Get(b, name), Get(c, name));
  }

  lemma KeysAssociate(a: Summary, b: Summary, c: Summary)
    ensures Combine(Combine(a, b), c).commands.Keys == Combine(a, Combine(b, c)).commands.Keys
  {
    assert Combine(a, b).commands.Keys == a.commands.Keys + b.commands.Keys;
    assert Combine(b, c).commands.Keys == b.commands.Keys + c.commands.Keys;
  }

  lemma WindowsAssociate(a: Summary, b: Summary, c: Summary)
    ensures Earlier(Earlier(a.start, b.start), c.start) == Earlier(a.start, Earlier(b.start, c.start))
    ensures Later(Later(a.stop, b.stop), c.stop) == Later(a.stop, Later(b.stop, c.stop))
  {
  }

  lemma CombineAssociates(a: Summary, b: Summary, c: Summary)
    ensures Combine(Combine(a, b), c) == Combine(a, Combine(b, c))
  {
    var p, q := Combine(Combine(a, b), c), Combine(a, Combine(b, c));
    forall name | name in p.commands.Keys
      ensures Get(p, name) == Get(q, name)
    {
      GetAssociates(a, b, c, name);
    }
    KeysAssociate(a, b, c);
    WindowsAssociate(a, b, c);
    SameSummary(p, q);
  }

  lemma CombineUnit(a: Summary)
    ensures Combine(a, EMPTY) == a == Combine(EMPTY, a)
  {
    forall name | name in a.commands
      ensures Get(Combine(a, EMPTY), name) == Get(a, name)
    {
      GetCombine(a, EMPTY, name);
      StatsUnit(Get(a, name));
    }
    SameSummary(Combine(a, EMPTY), a);
    CombineCommutes(a, EMPTY);
  }

  /** Recording one result is combining with that result alone. */
  lemma RecordIsCombine(l: Layout, s: Summary, r: CommandResult)
    ensures Record(l, s, r) == Combine(s, Record(l, EMPTY, r))
  {
    var one := Record(l, EMPTY, r);
    var p, q := Record(l, s, r), Combine(s, one);
    assert one.commands.Keys == {r.name};
    forall name | name in p.commands.Keys
      ensures Get(p, name) == Get(q, name)
    {
      GetCombine(s, one, name);
      if name == r.name {
        RecordStatsIsCombine(l, Get(s, name), r);
      } else {
        StatsUnit(Get(s, name));
      }
    }
    SameSummary(p, q);
  }

  lemma RecordStatsIsCombine(l: Layout, m: CommandStats, r: CommandResult)
    ensures RecordStats(l, m, r) == CombineStats(m, RecordStats(l, NO_STATS, r))
  {
    var empty: Counts := map[];
    PlusAdd(m.counts, empty, l.IndexFor(Clamp(r.latencyMicros)), 1);
    PlusUnit(m.counts);
  }

  lemma {:induction false} ZeroBelowIsEmpty(c: Counts, n: nat)
    requires Normal(c) && Below(c, n) == 0
    ensures forall i <- c :: i >= n
  {
    if n > 0 {
      ZeroBelowIsEmpty(c, n - 1);
    }
  }

  /** Merging by re-recording bucket floors is exact combination. */
  lemma MergeStatsIsCombine(l: Layout, m: CommandStats, other: CommandStats)
    requires StatsConsistent(l, m) && StatsConsistent(l, other)
    ensures MergeStats(l, m, other) == CombineStats(m, other)
    ensures StatsConsistent(l, CombineStats(m, other))
  {
    var len := l.CountsLen();
    MergeIsLossless(l, m.counts, other.counts);
    BelowPlus(m.counts, other.counts, len);
    if other.samples == 0 {
      ZeroBelowIsEmpty(other.counts, len);
      assert other.counts == map[];
      PlusUnit(m.counts);
    }
  }

  lemma MergeIsCombine(l: Layout, s: Summary, other: Summary)
    requires Consistent(l, s) && Consistent(l, other)
    ensures Merge(l, s, other) == Combine(s, other)
    ensures Consistent(l, Combine(s, other))
  {
    var p, q := Merge(l, s, other), Combine(s, other);
    NoStatsConsistent(l);
    forall name | name in p.commands.Keys
      ensures Get(p, name) == Get(q, name) && StatsConsistent(l, Get(q, name))
    {
      GetCombine(s, other, name);
      MergeStatsIsCombine(l, Get(s, name), Get(other, name));
      if name !in other.commands {
        StatsUnit(Get(s, name));
      }
    }
    SameSummary(p, q);
  }

  // ----- from results ------------------------------------------------------------

  function FromResults(l: Layout, rs: seq<CommandResult>): Summary {
    if rs == [] then EMPTY else Record(l, FromResults(l, rs[..|rs| - 1]), rs[|rs| - 1])
  }

  lemma {:induction false} FromResultsConsistent(l: Layout, rs: seq<CommandResult>)
    requires Tracks(l)
    ensures Consistent(l, FromResults(l, rs))
    ensures FromResults(l, rs).totalRequests == |rs|
    ensures FromResults(l, rs).start.None? && FromResults(l, rs).stop.None?
  {
    if rs != [] {
      var s, r := FromResults(l, rs[..|rs| - 1]), rs[|rs| - 1];
      FromResultsConsistent(l, rs[..|rs| - 1]);
      NoStatsConsistent(l);
      RecordStatsConsistent(l, Get(s, r.name), r);
    }
  }

  lemma {:induction false} FromResultsAppend(l: Layout, xs: seq<CommandResult>, ys: seq<CommandResult>)
    ensures FromResults(l, xs + ys) == Combine(FromResults(l, xs), FromResults(l, ys))
  {
    if ys == [] {
      assert xs + ys == xs;
      CombineUnit(FromResults(l, xs));
    } else {
      var rest, y := ys[..|ys| - 1], ys[|ys| - 1];
      assert (xs + ys)[..|xs + ys| - 1] == xs + rest;
      FromResultsAppend(l, xs, rest);
      RecordIsCombine(l, FromResults(l, xs + rest), y);
      RecordIsCombine(l, FromResults(l, rest), y);
      CombineAssociates(FromResults(l, xs), FromResults(l, rest), Record(l, EMPTY, y));
    }
  }

  /** The summary depends only on which results were recorded, not on their order. */
  lemma {:induction false} FromResultsOrder(l: Layout, xs: seq<CommandResult>, ys: seq<CommandResult>)
    requires multiset(xs) == multiset(ys)
    ensures FromResults(l, xs) == FromResults(l, ys)
    decreases |xs|
  {
    if xs == [] {
      assert |multiset(ys)| == 0;
    } else {
      var rest, x := xs[..|xs| - 1], xs[|xs| - 1];
      assert xs == rest + [x];
      assert x in multiset(ys);
      var i :| 0 <= i < |ys| && ys[i] == x;
      var a, b := ys[..i], ys[i + 1..];
      assert ys == a + [x] + b;
      assert multiset(rest) == multiset(xs) - multiset{x};
      RemoveOne(a, x, b);
      FromResultsOrder(l, rest, a + b);
      FromResultsAppend(l, rest, [x]);
      FromResultsAppend(l, a, b);
      FromResultsAppend(l, a + [x], b);
      FromResultsAppend(l, a, [x]);
      MoveLast(FromResults(l, a), FromResults(l, [x]), FromResults(l, b));
    }
  }

  lemma RemoveOne<T>(a: seq<T>, x: T, b: seq<T>)
    ensures multiset(a + b) == multiset(a + [x] + b) - multiset{x}
  {
  }

  lemma MoveLast(a: Summary, x: Summary, b: Summary)
    ensures Combine(Combine(a, x), b) == Combine(Combine(a, b), x)
  {
    CombineAssociates(a, x, b);
    CombineCommutes(x, b);
    CombineAssociates(a, b, x);
  }

  // ----- workers -----------------------------------------------------------------

  /** One worker's collector: its results and its window. */
  datatype Worker = Worker(results: seq<CommandResult>, start: Option<int>, stop: Option<int>) {
    function Collected(l: Layout): Summary {
      FromResults(l, results).(start := start, stop := stop)
    }
  }

  function MergeAll(l: Layout, workers: seq<Worker>): Summary {
    if workers == [] then EMPTY
    else Merge(l, MergeAll(l, workers[..|workers| - 1]), workers[|workers| - 1].Collected(l))
  }

  function AllResults(workers: seq<Worker>): seq<CommandResult> {
    if workers == [] then []
    else AllResults(workers[..|workers| - 1]) + workers[|workers| - 1].results
  }

  /** t is the least start among the workers that started, None when none did. */
  predicate IsEarliest(workers: seq<Worker>, t: Option<int>) {
    && (t.Some? ==> exists i :: 0 <= i < |workers| && workers[i].start == t)
    && forall i :: 0 <= i < |workers| && workers[i].start.Some? ==> t.Some? && t.value <= workers[i].start.value
  }

  predicate IsLatest(workers: seq<Worker>, t: Option<int>) {
    && (t.Some? ==> exists i :: 0 <= i < |workers| && workers[i].stop == t)
    && forall i :: 0 <= i < |workers| && workers[i].stop.Some? ==> t.Some? && workers[i].stop.value <= t.value
  }

  lemma EarliestStep(workers: seq<Worker>, t: Option<int>, w: Worker)
    requires IsEarliest(workers, t)
    ensures IsEarliest(workers + [w], Earlier(t, w.start))
  {
    if Earlier(t, w.start) == w.start {
      assert (workers + [w])[|workers|].start == w.start;
    } else if t.Some? {
      var i :| 0 <= i < |workers| && workers[i].start == t;
      assert (workers + [w])[i].start == t;
    }
  }

  lemma LatestStep(workers: seq<Worker>, t: Option<int>, w: Worker)
    requires IsLatest(workers, t)
    ensures IsLatest(workers + [w], Later(t, w.stop))
  {
    if Later(t, w.stop) == w.stop {
      assert (workers + [w])[|workers|].stop == w.stop;
    } else if t.Some? {
      var i :| 0 <= i < |workers| && workers[i].stop == t;
      assert (workers + [w])[i].stop == t;
    }
  }

  lemma {:induction false} MergedData(l: Layout, workers: seq<Worker>)
    requires Tracks(l)
    ensures SameData(MergeAll(l, workers), FromResults(l, AllResults(workers)))
    ensures Consistent(l, MergeAll(l, workers))
  {
    if workers != [] {
      var rest, w := workers[..|workers| - 1], workers[|workers| - 1];
      MergedData(l, rest);
      FromResultsConsistent(l, w.results);
      MergeIsCombine(l, MergeAll(l, rest), w.Collected(l));
      FromResultsAppend(l, AllResults(rest), w.results);
      CombineIgnoresWindow(MergeAll(l, rest), FromResults(l, AllResults(rest)),
                           w.Collected(l), FromResults(l, w.results));
    }
  }

  lemma {:induction false} MergedWindow(l: Layout, workers: seq<Worker>)
    ensures IsEarliest(workers, MergeAll(l, workers).start) && IsLatest(workers, MergeAll(l, workers).stop)
  {
    if workers != [] {
      var rest, w := workers[..|workers| - 1], workers[|workers| - 1];
      MergedWindow(l, rest);
      EarliestStep(rest, MergeAll(l, rest).start, w);
      LatestStep(rest, MergeAll(l, rest).stop, w);
      assert workers == rest + [w];
    }
  }

  /** Same commands and totals, whatever the window. */
  predicate SameData(a: Summary, b: Summary) {
    a.commands == b.commands && a.totalRequests == b.totalRequests && a.totalErrors == b.totalErrors
  }

  lemma CombineIgnoresWindow(a: Summary, a': Summary, b: Summary, b': Summary)
    requires SameData(a, a') && SameData(b, b')
    ensures SameData(Combine(a, b), Combine(a', b'))
  {
    forall name: Name
      ensures Get(a, name) == Get(a', name) && Get(b, name) == Get(b', name)
    {
    }
  }

  /**
    However results are distributed over workers, and whatever the order in which
    collectors are merged, the merged totals and per-command metrics are those of
    one collector fed all the results, and the window is the widest.
   */
  lemma MergeOrderIrrelevant(l: Layout, workers: seq<Worker>, all: seq<CommandResult>)
    requires Tracks(l) && multiset(AllResults(workers)) == multiset(all)
    ensures SameData(MergeAll(l, workers), FromResults(l, all))
    ensures MergeAll(l, workers).totalRequests == |all|
    ensures Consistent(l, MergeAll(l, workers))
    ensures IsEarliest(workers, MergeAll(l, workers).start) && IsLatest(workers, MergeAll(l, workers).stop)
  {
    MergedData(l, workers);
    MergedWindow(l, workers);
    FromResultsOrder(l, AllResults(workers), all);
    FromResultsConsistent(l, all);
  }

  // ----- counts ------------------------------------------------------------------

  function Count(rs: seq<CommandResult>, p: CommandResult -> bool): (n: nat)
    ensures n <= |rs|
  {
    if rs == [] then 0 else Count(rs[..|rs| - 1], p) + if p(rs[|rs| - 1]) then 1 else 0
  }

  function Fails(): CommandResult -> bool {
    (r: CommandResult) => !r.success
  }

  function For(name: Name): CommandResult -> bool {
    (r: CommandResult) => r.name == name
  }

  function FailsFor(name: Name): CommandResult -> bool {
    (r: CommandResult) => r.name == name && !r.success
  }

  lemma {:induction false} CountAll(rs: seq<CommandResult>, p: CommandResult -> bool)
    ensures Count(rs, p) == |rs| <==> forall i :: 0 <= i < |rs| ==> p(rs[i])
  {
    if rs != [] {
      CountAll(rs[..|rs| - 1], p);
    }
  }

  /** A collector counts the results it was given: all, the failed ones, and those of each command. */
  lemma {:induction false} FromResultsCounts(l: Layout, rs: seq<CommandResult>, name: Name)
    ensures FromResults(l, rs).totalRequests == |rs|
    ensures FromResults(l, rs).totalErrors == Count(rs, Fails())
    ensures Get(FromResults(l, rs), name).requests == Count(rs, For(name))
    ensures Get(FromResults(l, rs), name).errors == Count(rs, FailsFor(name))
  {
    if rs != [] {
      FromResultsCounts(l, rs[..|rs| - 1], name);
    }
  }

  /** And so do merged collectors, of the results of all workers. */
  lemma MergedCounts(l: Layout, workers: seq<Worker>, all: seq<CommandResult>, name: Name)
    requires Tracks(l) && multiset(AllResults(workers)) == multiset(all)
    ensures MergeAll(l, workers).totalRequests == |all|
    ensures MergeAll(l, workers).totalErrors == Count(all, Fails())
    ensures Get(MergeAll(l, workers), name).requests == Count(all, For(name))
    ensures Get(MergeAll(l, workers), name).errors == Count(all, FailsFor(name))
  {
    MergeOrderIrrelevant(l, workers, all);
    FromResultsCounts(l, all, name);
  }

  // ----- totals ------------------------------------------------------------------

  function SumRequests(s: Summary, names: seq<Name>): nat {
    if names == [] then 0
    else SumRequests(s, names[..|names| - 1]) + Get(s, names[|names| - 1]).requests
  }

  function SumErrors(s: Summary, names: seq<Name>): nat {
    if names == [] then 0
    else SumErrors(s, names[..|names| - 1]) + Get(s, names[|names| - 1]).errors
  }

  predicate Distinct(names: seq<Name>) {
    forall i, j :: 0 <= i < j < |names| ==> names[i] != names[j]
  }

  lemma {:induction false} SumsAfterRecord(l: Layout, s: Summary, r: CommandResult, names: seq<Name>)
    requires Distinct(names)
    ensures SumRequests(Record(l, s, r), names) == SumRequests(s, names) + if r.name in names then 1 else 0
    ensures SumErrors(Record(l, s, r), names) == SumErrors(s, names) + if r.name in names && !r.success then 1 else 0
  {
    if names != [] {
      var rest := names[..|names| - 1];
      SumsAfterRecord(l, s, r, rest);
      assert names == rest + [names[|names| - 1]];
    }
  }

  /** The totals are the sums over the commands. */
  lemma {:induction false} TotalsAreSums(l: Layout, rs: seq<CommandResult>, names: seq<Name>)
    requires Distinct(names) && forall r <- rs :: r.name in names
    ensures FromResults(l, rs).totalRequests == SumRequests(FromResults(l, rs), names)
    ensures FromResults(l, rs).totalErrors == SumErrors(FromResults(l, rs), names)
  {
    if rs == [] {
      NoSums(names);
    } else {
      TotalsAreSums(l, rs[..|rs| - 1], names);
      SumsAfterRecord(l, FromResults(l, rs[..|rs| - 1]), rs[|rs| - 1], names);
    }
  }

  /** And so are the totals of merged collectors, however the results were spread over them. */
  lemma MergedTotalsAreSums(l: Layout, workers: seq<Worker>, names: seq<Name>)
    requires Tracks(l) && Distinct(names) && forall r <- AllResults(workers) :: r.name in names
    ensures MergeAll(l, workers).totalRequests == SumRequests(MergeAll(l, workers), names)
    ensures MergeAll(l, workers).totalErrors == SumErrors(MergeAll(l, workers), names)
  {
    MergedData(l, workers);
    TotalsAreSums(l, AllResults(workers), names);
    SumsOfSameData(MergeAll(l, workers), FromResults(l, AllResults(workers)), names);
  }

  lemma {:induction false} SumsOfSameData(a: Summary, b: Summary, names: seq<Name>)
    requires SameData(a, b)
    ensures SumRequests(a, names) == SumRequests(b, names) && SumErrors(a, names) == SumErrors(b, names)
  {
    if names != [] {
      SumsOfSameData(a, b, names[..|names| - 1]);
    }
  }

  lemma {:induction false} NoSums(names: seq<Name>)
    ensures SumRequests(EMPTY, names) == 0 && SumErrors(EMPTY, names) == 0
  {
    if names != [] {
      NoSums(names[..|names| - 1]);
    }
  }
}
