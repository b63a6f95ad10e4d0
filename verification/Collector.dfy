/** The collector objects, proved against the values of module Metrics. */
module Collectors {
  import opened HdrLayout
  import H = HdrHistogram
  import M = Metrics
  import opened Wrappers

  /** Per-command metrics: counters and a histogram. */
  class CommandMetrics {
    const name: M.Name
    const histogram: H.Histogram
    var requests: nat
    var errors: nat

    constructor (name: M.Name, layout: Layout)
      requires layout.buckets >= 1
      ensures this.name == name && fresh(histogram)
      ensures Valid(layout) && View() == M.NO_STATS
    {
      this.name := name;
      var h := new H.Histogram.WithLayout(layout);
      histogram := h;
      requests, errors := 0, 0;
    }

    predicate Valid(layout: Layout)
      reads this, histogram
    {
      histogram.Valid() && histogram.layout == layout
    }

    function View(): M.CommandStats
      reads this, histogram
    {
      M.CommandStats(requests, errors, histogram.counts, histogram.total)
    }

    method Record(layout: Layout, r: M.CommandResult)
      requires Valid(layout)
      modifies this, histogram
      ensures Valid(layout) && View() == M.RecordStats(layout, old(View()), r)
    {
      requests := requests + 1;
      if r.success {
        var lat := r.latencyMicros;
        if lat > M.MAX_TRACKABLE_MICROS {
          lat := M.MAX_TRACKABLE_MICROS;
        }
        histogram.Record(lat);
      } else {
        errors := errors + 1;
      }
    }

    method MergeFrom(layout: Layout, other: CommandMetrics)
      requires Valid(layout) && other.Valid(layout) && other != this && other.histogram != histogram
      modifies this, histogram
      ensures Valid(layout) && View() == M.MergeStats(layout, old(View()), old(other.View()))
    {
      requests := requests + other.requests;
      errors := errors + other.errors;
      if other.histogram.total > 0 {
        histogram.Merge(other.histogram);
      }
    }

    method Ingest(layout: Layout, requests: nat, errors: nat, h: H.Histogram)
      requires Valid(layout) && h.Valid() && h.layout == layout && h != histogram
      modifies this, histogram
      ensures Valid(layout) && View() == M.MergeStats(layout, old(View()), old(Sent(requests, errors, h)))
    {
      this.requests := this.requests + requests;
      this.errors := this.errors + errors;
      if h.total > 0 {
        histogram.Merge(h);
      }
    }
  }

  /** Counters and a histogram as another process sent them. */
  function Sent(requests: nat, errors: nat, histogram: H.Histogram): M.CommandStats
    reads histogram
  {
    M.CommandStats(requests, errors, histogram.counts, histogram.total)
  }

  /** The commands of mine with those of theirs outside pending merged in. */
  ghost function PartlyMerged(l: Layout, mine: M.Summary, theirs: M.Summary, pending: set<M.Name>)
    : map<M.Name, M.CommandStats>
  {
    map n | n in mine.commands.Keys + (theirs.commands.Keys - pending) ::
      if n in theirs.commands && n !in pending then M.MergeStats(l, M.Get(mine, n), theirs.commands[n])
      else mine.commands[n]
  }

  lemma PartlyMergedStep(l: Layout, mine: M.Summary, theirs: M.Summary, pending: set<M.Name>, name: M.Name)
    requires name in pending && name in theirs.commands
    ensures PartlyMerged(l, mine, theirs, pending - {name}) ==
            PartlyMerged(l, mine, theirs, pending)[name := M.MergeStats(l, M.Get(mine, name), theirs.commands[name])]
    ensures name in PartlyMerged(l, mine, theirs, pending) <==> name in mine.commands
    ensures name in mine.commands ==> PartlyMerged(l, mine, theirs, pending)[name] == mine.commands[name]
  {
    var p, q := PartlyMerged(l, mine, theirs, pending - {name}), PartlyMerged(l, mine, theirs, pending);
    assert p.Keys == q.Keys + {name};
  }

  lemma IsMerge(l: Layout, mine: M.Summary, theirs: M.Summary, after: M.Summary)
    requires after.commands == PartlyMerged(l, mine, theirs, {})
    requires after.totalRequests == mine.totalRequests + theirs.totalRequests
    requires after.totalErrors == mine.totalErrors + theirs.totalErrors
    requires after.start == M.Earlier(mine.start, theirs.start) && after.stop == M.Later(mine.stop, theirs.stop)
    ensures after == M.Merge(l, mine, theirs)
  {
    var p := M.Merge(l, mine, theirs);
    assert p.commands.Keys == after.commands.Keys;
    forall n | n in p.commands.Keys
      ensures p.commands[n] == after.commands[n]
    {
    }
    assert p.commands == after.commands;
  }

  ghost function StatsIn(contents: map<M.Name, M.CommandStats>, name: M.Name): M.CommandStats {
    if name in contents then contents[name] else M.NO_STATS
  }

  /** The collector's map from command names to their metrics. */
  class CommandTable {
    const layout: Layout
    var commands: map<M.Name, CommandMetrics>
    ghost var Contents: map<M.Name, M.CommandStats>  // the commands' metrics as values
    ghost var Repr: set<object>

    ghost predicate Valid()
      reads this, Repr
    {
      && layout.buckets >= 1 && this in Repr && Contents.Keys == commands.Keys
      && (forall n <- commands :: commands[n] in Repr && commands[n].histogram in Repr)
      && (forall n <- commands :: commands[n].Valid(layout) && commands[n].View() == Contents[n])
      && (forall n, m :: n in commands && m in commands && n != m ==>
            commands[n] != commands[m] && commands[n].histogram != commands[m].histogram)
    }

    constructor (layout: Layout)
      requires layout.buckets >= 1
      ensures Valid() && fresh(Repr) && Contents == map[] && this.layout == layout
    {
      this.layout := layout;
      commands, Contents := map[], map[];
      Repr := {this};
    }

    /** The metrics of a command, created on first use. */
    method Ensure(name: M.Name)
      requires Valid()
      modifies this
      ensures Valid() && fresh(Repr - old(Repr)) && name in commands
      ensures Contents == if name in old(Contents) then old(Contents) else old(Contents)[name := M.NO_STATS]
    {
      if name !in commands {
        var m := new CommandMetrics(name, layout);
        commands, Contents := commands[name := m], Contents[name := M.NO_STATS];
        Repr := Repr + {m, m.histogram};
      }
    }

    method RecordInto(name: M.Name, r: M.CommandResult)
      requires Valid() && name in commands
      modifies this`Contents, Repr - {this}
      ensures Valid() && name in old(Contents)
      ensures Contents == old(Contents)[name := M.RecordStats(layout, old(Contents)[name], r)]
    {
      commands[name].Record(layout, r);
      Contents := Contents[name := commands[name].View()];
    }

    method Record(r: M.CommandResult)
      requires Valid()
      modifies Repr
      ensures Valid() && fresh(Repr - old(Repr))
      ensures Contents == old(Contents)[r.name := M.RecordStats(layout, StatsIn(old(Contents), r.name), r)]
    {
      ghost var before := Contents;
      Ensure(r.name);
      ghost var mid := Contents;
      RecordInto(r.name, r);
      TwoUpdates(before, mid, r.name, M.NO_STATS, Contents[r.name]);
    }

    method MergeInto(name: M.Name, om: CommandMetrics)
      requires Valid() && name in commands && om.Valid(layout) && om !in Repr && om.histogram !in Repr
      modifies this`Contents, Repr - {this}
      ensures Valid() && name in old(Contents)
      ensures Contents == old(Contents)[name := M.MergeStats(layout, old(Contents)[name], old(om.View()))]
    {
      commands[name].MergeFrom(layout, om);
      Contents := Contents[name := commands[name].View()];
    }

    method IngestInto(name: M.Name, requests: nat, errors: nat, h: H.Histogram)
      requires Valid() && name in commands && h.Valid() && h.layout == layout && h !in Repr
      modifies this`Contents, Repr - {this}
      ensures Valid() && name in old(Contents)
      ensures Contents ==
              old(Contents)[name := M.MergeStats(layout, old(Contents)[name], old(Sent(requests, errors, h)))]
    {
      commands[name].Ingest(layout, requests, errors, h);
      Contents := Contents[name := commands[name].View()];
    }

    /** The loop over another table's commands. */
    method MergeFrom(other: CommandTable, ghost mine: M.Summary, ghost theirs: M.Summary)
      requires Valid() && other.Valid() && Repr !! other.Repr && other.layout == layout
      requires mine.commands == Contents && theirs.commands == other.Contents
      modifies Repr
      ensures Valid() && fresh(Repr - old(Repr)) && Repr !! other.Repr
      ensures Contents == PartlyMerged(layout, mine, theirs, {})
    {
      var pending := other.commands.Keys;
      assert Contents == PartlyMerged(layout, mine, theirs, pending);
      while pending != {}
        invariant pending <= other.commands.Keys
        invariant Valid() && fresh(Repr - old(Repr)) && Repr !! other.Repr
        invariant unchanged(other.Repr)
        invariant Contents == PartlyMerged(layout, mine, theirs, pending)
        decreases pending
      {
        var name :| name in pending;
        MergeCommand(name, other.commands[name], mine, theirs, pending);
        pending := pending - {name};
      }
    }

    method MergeCommand(name: M.Name, om: CommandMetrics,
                        ghost mine: M.Summary, ghost theirs: M.Summary, ghost pending: set<M.Name>)
      requires Valid() && om.Valid(layout) && om !in Repr && om.histogram !in Repr
      requires name in pending && name in theirs.commands && theirs.commands[name] == om.View()
      requires Contents == PartlyMerged(layout, mine, theirs, pending)
      modifies Repr
      ensures Valid() && fresh(Repr - old(Repr))
      ensures Contents == PartlyMerged(layout, mine, theirs, pending - {name})
    {
      ghost var v0 := Contents;
      PartlyMergedStep(layout, mine, theirs, pending, name);
      Ensure(name);
      ghost var v1 := Contents;
      MergeInto(name, om);
      TwoUpdates(v0, v1, name, M.Get(mine, name), Contents[name]);
    }
  }

  lemma TwoUpdates<K, V>(v0: map<K, V>, v1: map<K, V>, k: K, d: V, e: V)
    requires v1 == v0 || v1 == v0[k := d]
    ensures v1[k := e] == v0[k := e]
  {
  }

  /** One worker's collector, or the merged one. */
  class Collector {
    const layout: Layout
    const table: CommandTable
    var totalRequests: nat
    var totalErrors: nat
    var start: Option<int>
    var stop: Option<int>

    ghost function Repr(): set<object>
      reads table
    {
      {this} + table.Repr
    }

    ghost predicate Valid()
      reads table, table.Repr
    {
      table.Valid() && table.layout == layout && this !in table.Repr
    }

    ghost function View(): M.Summary
      reads this, table, table.Repr
      requires Valid()
    {
      M.Summary(table.Contents, totalRequests, totalErrors, start, stop)
    }

    constructor (layout: Layout)
      requires layout.buckets >= 1
      ensures Valid() && fresh(Repr()) && View() == M.EMPTY && this.layout == layout
    {
      this.layout := layout;
      table := new CommandTable(layout);
      totalRequests, totalErrors := 0, 0;
      start, stop := None, None;
    }

    method Start(now: int)
      requires Valid()
      modifies this
      ensures Valid() && Repr() == old(Repr()) && View() == old(View()).(start := Some(now))
    {
      start := Some(now);
    }

    method Stop(now: int)
      requires Valid()
      modifies this
      ensures Valid() && Repr() == old(Repr()) && View() == old(View()).(stop := Some(now))
    {
      stop := Some(now);
    }

    /** The counters of one request. */
    method CountRequest(r: M.CommandResult)
      modifies this
      ensures totalRequests == old(totalRequests) + 1
      ensures totalErrors == old(totalErrors) + if r.success then 0 else 1
      ensures start == old(start) && stop == old(stop)
    {
      totalRequests := totalRequests + 1;
      if !r.success {
        totalErrors := totalErrors + 1;
      }
    }

    method Record(r: M.CommandResult)
      requires Valid()
      modifies Repr()
      ensures Valid() && fresh(table.Repr - old(table.Repr))
      ensures View() == M.Record(layout, old(View()), r)
    {
      CountRequest(r);
      table.Record(r);
    }

    /** Take in one command's counters and rebuilt histogram. */
    method IngestCommand(name: M.Name, requests: nat, errors: nat, h: H.Histogram)
      requires Valid() && h.Valid() && h.layout == layout && h !in table.Repr
      modifies Repr()
      ensures Valid() && fresh(table.Repr - old(table.Repr))
      ensures View() == old(View()).(commands := old(View()).commands[
                          name := M.MergeStats(layout, M.Get(old(View()), name), old(Sent(requests, errors, h)))])
    {
      ghost var before := View();
      table.Ensure(name);
      ghost var mid := table.Contents;
      assert mid[name] == M.Get(before, name);
      table.IngestInto(name, requests, errors, h);
      TwoUpdates(before.commands, mid, name, M.NO_STATS, table.Contents[name]);
    }

    method IngestTotals(requests: nat, errors: nat)
      requires Valid()
      modifies this
      ensures Valid() && Repr() == old(Repr())
      ensures View() == old(View()).(totalRequests := old(totalRequests) + requests,
                                     totalErrors := old(totalErrors) + errors)
    {
      totalRequests := totalRequests + requests;
      totalErrors := totalErrors + errors;
    }

    /** Widen the window to cover another one. */
    method WidenTo(otherStart: Option<int>, otherStop: Option<int>)
      modifies this
      ensures start == M.Earlier(old(start), otherStart) && stop == M.Later(old(stop), otherStop)
      ensures totalRequests == old(totalRequests) && totalErrors == old(totalErrors)
    {
      if otherStart.Some? && (start.None? || otherStart.value < start.value) {
        start := otherStart;
      }
      if otherStop.Some? && (stop.None? || otherStop.value > stop.value) {
        stop := otherStop;
      }
    }

    method MergeFrom(other: Collector)
      requires Valid() && other.Valid() && Repr() !! other.Repr() && other.layout == layout
      modifies Repr()
      ensures Valid() && fresh(table.Repr - old(table.Repr))
      ensures View() == M.Merge(layout, old(View()), old(other.View()))
    {
      ghost var mine, theirs := View(), other.View();
      totalRequests := totalRequests + other.totalRequests;
      totalErrors := totalErrors + other.totalErrors;
      table.MergeFrom(other.table, mine, theirs);
      WidenTo(other.start, other.stop);
      IsMerge(layout, mine, theirs, View());
    }
  }

  /** SafeMerger: the lock makes each merge one atomic step on the destination. */
  class SafeMerger {
    const dst: Collector

    constructor (dst: Collector)
      ensures this.dst == dst
    {
      this.dst := dst;
    }

    method Merge(src: Collector)
      requires dst.Valid() && src.Valid() && dst.Repr() !! src.Repr() && src.layout == dst.layout
      modifies dst.Repr()
      ensures dst.Valid()
      ensures dst.View() == M.Merge(dst.layout, old(dst.View()), old(src.View()))
    {
      dst.MergeFrom(src);
    }
  }
}
