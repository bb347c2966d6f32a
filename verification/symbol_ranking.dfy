/**
 * The variant x/tsRank.js: metrics of `check` events only, filtered by the glob, split into metrics
 * of declarations under node_modules and the rest, each side ranked by check duration, cut to
 * `logCount` and printed as a numbered list.
 */
module SymbolRanking {
  import opened Seqs
  import opened Sorting
  import opened TraceModel
  import opened Correlation
  import opened Format

  /** `{ ...item, isNodeModule: item.symbol.firstDeclaration.path.includes('/node_modules') }`. */
  function Reflag(m: Metric): (r: Metric)
    ensures r.symbol == m.symbol && r.check == m.check && FlagConsistent(r)
  {
    m.(isNodeModule := IsNodeModulePath(PathOf(m)))
  }

  /** The `.map` that recomputes every metric's `isNodeModule` flag from its declaration path. */
  function WithNodeModuleFlag(ms: seq<Metric>): (r: seq<Metric>)
    ensures |r| == |ms|
    ensures forall i :: 0 <= i < |ms| ==>
              r[i].symbol == ms[i].symbol && r[i].check == ms[i].check && FlagConsistent(r[i])
    decreases |ms|
  {
    if ms == [] then [] else WithNodeModuleFlag(ms[..|ms| - 1]) + [Reflag(ms[|ms| - 1])]
  }

  /** Re-flagging changes nothing in metrics whose flags already agree with their paths. */
  lemma {:induction false} ReflagConsistentIsIdentity(ms: seq<Metric>)
    requires forall m :: m in ms ==> FlagConsistent(m)
    ensures WithNodeModuleFlag(ms) == ms
    decreases |ms|
  {
    if ms != [] {
      var n := |ms| - 1;
      assert ms[n] in ms;
      forall m | m in ms[..n] ensures FlagConsistent(m) {
        assert m in ms;
      }
      ReflagConsistentIsIdentity(ms[..n]);
      assert ms == ms[..n] + [ms[n]];
    }
  }

  /** Re-flagging twice is re-flagging once. */
  lemma ReflagIdempotent(ms: seq<Metric>)
    ensures WithNodeModuleFlag(WithNodeModuleFlag(ms)) == WithNodeModuleFlag(ms)
  {
    var r := WithNodeModuleFlag(ms);
    forall m | m in r ensures FlagConsistent(m) {
    }
    ReflagConsistentIsIdentity(r);
  }

  /**
   * `mapStructuredTypes`: the extractor restricted to `cat === 'check'`, then the flag re-map. The
   * extractor already sets each flag from the path, so the result is the extracted list itself.
   */
  method MapStructuredTypes(trace: seq<TraceEvent>, types: seq<CatalogEntry>) returns (metrics: seq<Metric>)
    ensures metrics == Metrics(CheckOnly, trace, types)
    ensures forall m :: m in metrics ==> FlagConsistent(m)
  {
    var structuredTypeMetrics := SymbolCheckMetrics(CheckOnly, trace, types);
    MetricsFlagConsistent(CheckOnly, trace, types);
    ReflagConsistentIsIdentity(structuredTypeMetrics);
    metrics := WithNodeModuleFlag(structuredTypeMetrics);
  }

  function ModuleFilter(): Metric -> bool
  {
    (m: Metric) => m.isNodeModule
  }

  function SourceFilter(): Metric -> bool
  {
    (m: Metric) => !m.isNodeModule
  }

  /** `strucTypeMetrics.filter(({ isNodeModule }) => isNodeModule)`. */
  function ModuleMetrics(ms: seq<Metric>): (r: seq<Metric>)
    ensures forall i :: 0 <= i < |r| ==> r[i].isNodeModule
  {
    Filter(ms, ModuleFilter())
  }

  /** `strucTypeMetrics.filter(({ isNodeModule }) => !isNodeModule)`. */
  function SourceMetrics(ms: seq<Metric>): (r: seq<Metric>)
    ensures forall i :: 0 <= i < |r| ==> !r[i].isNodeModule
  {
    Filter(ms, SourceFilter())
  }

  /**
   * The two buckets split the metrics: each keeps the input order, every metric lands in exactly
   * one of them, and for consistently flagged metrics the bucket is decided by the declaration path.
   */
  lemma BucketsPartition(ms: seq<Metric>)
    ensures multiset(ModuleMetrics(ms)) + multiset(SourceMetrics(ms)) == multiset(ms)
    ensures |ModuleMetrics(ms)| + |SourceMetrics(ms)| == |ms|
    ensures SubSeq(ModuleMetrics(ms), ms) && SubSeq(SourceMetrics(ms), ms)
    ensures forall m :: m in ModuleMetrics(ms) <==> m in ms && m.isNodeModule
    ensures forall m :: m in SourceMetrics(ms) <==> m in ms && !m.isNodeModule
    ensures (forall m :: m in ms ==> FlagConsistent(m)) ==>
              forall m :: m in ModuleMetrics(ms) <==> m in ms && IsNodeModulePath(PathOf(m))
  {
    FilterPartition(ms, ModuleFilter(), SourceFilter());
    FilterIsSubSeq(ms, ModuleFilter());
    FilterIsSubSeq(ms, SourceFilter());
    FilterMembers(ms, ModuleFilter());
    FilterMembers(ms, SourceFilter());
  }

  /** `rankMetricsByDur`: `orderBy(metrics, ['check.dur'], 'desc').slice(0, logCount)`, then re-flagged. */
  function RankMetricsByDur(ms: seq<Metric>, logCount: int): (r: seq<Metric>)
    ensures 0 <= logCount ==> |r| == Min(logCount, |ms|)
    ensures forall i :: 0 <= i < |r| ==> FlagConsistent(r[i])
  {
    WithNodeModuleFlag(Top(ms, Dur, logCount))
  }

  /**
   * On consistently flagged metrics the ranking is the `logCount` costliest checks: by non-increasing
   * duration, equal durations in input order, taken from the input, and no metric left out took
   * longer than one listed.
   */
  lemma RankMetricsByDurRanked(ms: seq<Metric>, logCount: int)
    requires forall m :: m in ms ==> FlagConsistent(m)
    ensures RankMetricsByDur(ms, logCount) == Top(ms, Dur, logCount)
    ensures multiset(RankMetricsByDur(ms, logCount)) <= multiset(ms)
    ensures Ordered(RankMetricsByDur(ms, logCount), Dur, Desc)
    ensures forall d: nat :: WithKey(RankMetricsByDur(ms, logCount), Dur, d) <= WithKey(ms, Dur, d)
    ensures forall x, i ::
              x in multiset(ms) - multiset(RankMetricsByDur(ms, logCount)) && 0 <= i < |RankMetricsByDur(ms, logCount)|
              ==> Dur(x) <= Dur(RankMetricsByDur(ms, logCount)[i])
  {
    var top := Top(ms, Dur, logCount);
    TopRanked(ms, Dur, logCount);
    forall m | m in top ensures FlagConsistent(m) {
      assert m in multiset(top);
    }
    ReflagConsistentIsIdentity(top);
  }

  /** What `metricLogMsg` prints of a metric: duration, name column, relative path and start position. */
  datatype MetricMessage = MetricMessage(dur: nat, nameColumn: string, relPath: string, start: CodePos)

  /** `metricLogMsg`, with `path.relative(cwd, ·)` given as the function `relative`. */
  function MetricLogMsg(m: Metric, relative: string -> string): (msg: MetricMessage)
    ensures msg.dur == Dur(m) && msg.relPath == relative(PathOf(m))
    ensures msg.start == m.symbol.firstDeclaration.start
    ensures |msg.nameColumn| == TypeChars
    ensures |m.symbol.symbolName| >= TypeChars ==> msg.nameColumn == m.symbol.symbolName[..TypeChars]
    ensures |m.symbol.symbolName| < TypeChars ==>
              && msg.nameColumn[..|m.symbol.symbolName|] == m.symbol.symbolName
              && forall i :: |m.symbol.symbolName| <= i < TypeChars ==> msg.nameColumn[i] == ' '
  {
    MetricMessage(Dur(m), SymbolColumn(m.symbol.symbolName), relative(PathOf(m)), m.symbol.firstDeclaration.start)
  }

  /** One printed line of a group: its 1-based number and the metric message. */
  datatype LogLine = LogLine(number: nat, message: MetricMessage)

  /** `lines` lists `metrics` in order, numbered from 1. */
  ghost predicate NumberedLog(lines: seq<LogLine>, metrics: seq<Metric>, relative: string -> string)
  {
    && |lines| == |metrics|
    && forall k :: 0 <= k < |lines| ==> lines[k] == LogLine(k + 1, MetricLogMsg(metrics[k], relative))
  }

  /** `logMetricGroup`: one line per metric, numbered by the pre-incremented `count`. */
  method LogMetricGroup(metrics: seq<Metric>, relative: string -> string) returns (lines: seq<LogLine>)
    ensures NumberedLog(lines, metrics, relative)
    ensures forall k :: 0 <= k < |lines| ==> lines[k].number == k + 1
  {
    var count := 0;
    lines := [];
    for i := 0 to |metrics|
      invariant count == i
      invariant NumberedLog(lines, metrics[..i], relative)
    {
      count := count + 1;
      lines := lines + [LogLine(count, MetricLogMsg(metrics[i], relative))];
    }
    assert metrics[..|metrics|] == metrics;
  }

  /** What x/tsRank.js prints: input sizes, then the source listing, then the node_modules listing. */
  datatype SymbolReport = SymbolReport(traceCount: nat, typeCount: nat, source: seq<LogLine>, nodeModules: seq<LogLine>)

  /** The metrics of the run, after the glob filter. */
  function MatchedMetrics(trace: seq<TraceEvent>, types: seq<CatalogEntry>, matches: string -> bool): seq<Metric>
  {
    FilteredMetrics(Metrics(CheckOnly, trace, types), matches)
  }

  /** The main pipeline of x/tsRank.js on already-loaded inputs. */
  method RankSymbols(trace: seq<TraceEvent>, types: seq<CatalogEntry>, matches: string -> bool,
                     relative: string -> string, logCount: int) returns (report: SymbolReport)
    ensures report.traceCount == |trace| && report.typeCount == |types|
    ensures var ms := MatchedMetrics(trace, types, matches);
            && NumberedLog(report.source, Top(SourceMetrics(ms), Dur, logCount), relative)
            && NumberedLog(report.nodeModules, Top(ModuleMetrics(ms), Dur, logCount), relative)
  {
    var all := MapStructuredTypes(trace, types);
    var strucTypeMetrics := FilteredMetrics(all, matches);
    BucketsPartition(strucTypeMetrics);
    var moduleMetrics := RankMetricsByDur(ModuleMetrics(strucTypeMetrics), logCount);
    var nonModuleMetrics := RankMetricsByDur(SourceMetrics(strucTypeMetrics), logCount);
    RankMetricsByDurRanked(ModuleMetrics(strucTypeMetrics), logCount);
    RankMetricsByDurRanked(SourceMetrics(strucTypeMetrics), logCount);
    var source := LogMetricGroup(nonModuleMetrics, relative);
    var nodeModules := LogMetricGroup(moduleMetrics, relative);
    report := SymbolReport(|trace|, |types|, source, nodeModules);
  }

  /** Either bucket, as chosen by `nodeModules`. */
  function Bucket(ms: seq<Metric>, nodeModules: bool): seq<Metric>
  {
    if nodeModules then ModuleMetrics(ms) else SourceMetrics(ms)
  }

  /** Every metric of a bucket of the matched metrics was extracted, matches the glob and sits on its side. */
  lemma {:induction false} BucketMembers(trace: seq<TraceEvent>, types: seq<CatalogEntry>, matches: string -> bool, nodeModules: bool)
    ensures forall m :: m in Bucket(MatchedMetrics(trace, types, matches), nodeModules) ==>
              && m in Metrics(CheckOnly, trace, types) && matches(PathOf(m))
              && IsNodeModulePath(PathOf(m)) == nodeModules
  {
    var ms := MatchedMetrics(trace, types, matches);
    MetricsFlagConsistent(CheckOnly, trace, types);
    BucketsPartition(ms);
  }

  /**
   * A listing holds at most `logCount` glob-matching metrics of its side (declared under node_modules
   * or not), costliest first, and no metric of that side left out took longer than one listed.
   */
  lemma {:induction false} ListingIsTopOfItsSide(trace: seq<TraceEvent>, types: seq<CatalogEntry>, matches: string -> bool,
                                                  logCount: int, nodeModules: bool)
    ensures var side := Bucket(MatchedMetrics(trace, types, matches), nodeModules);
            var listed := Top(side, Dur, logCount);
            && (0 <= logCount ==> |listed| == Min(logCount, |side|))
            && Ordered(listed, Dur, Desc)
            && (forall m :: m in listed ==>
                  m in Metrics(CheckOnly, trace, types) && matches(PathOf(m)) && IsNodeModulePath(PathOf(m)) == nodeModules)
            && (forall x, i :: x in multiset(side) - multiset(listed) && 0 <= i < |listed| ==> Dur(x) <= Dur(listed[i]))
  {
    var side := Bucket(MatchedMetrics(trace, types, matches), nodeModules);
    var listed := Top(side, Dur, logCount);
    BucketMembers(trace, types, matches, nodeModules);
    TopRanked(side, Dur, logCount);
    forall m | m in listed ensures m in side {
      assert m in multiset(listed);
    }
  }
}
