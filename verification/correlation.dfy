/**
 * The correlation index and the metric extractor: `getSymbolCheckMetrics` in tsRank.ts and
 * `mapStructuredTypes` in x/tsRank.js. The two differ only in which event categories count as checks.
 * Also the `FilterByGlob` both of them apply afterwards.
 */
module Correlation {
  import opened Seqs
  import opened TraceModel

  /** tsRank.ts accepts `cat` "check" or "checkTypes"; x/tsRank.js accepts only "check". */
  datatype CheckCategories = CheckOrCheckTypes | CheckOnly

  predicate IsStructuredCheck(cats: CheckCategories, e: TraceEvent)
  {
    && (e.cat == "check" || (cats == CheckOrCheckTypes && e.cat == "checkTypes"))
    && e.name == StructuredTypeRelatedTo
  }

  /** `e` is a qualifying check whose subject is the type `id`. */
  predicate Measures(cats: CheckCategories, e: TraceEvent, id: int)
  {
    IsStructuredCheck(cats, e) && e.sourceId == id
  }

  function CheckFilter(cats: CheckCategories): TraceEvent -> bool
  {
    e => IsStructuredCheck(cats, e)
  }

  /** The `trace.filter(...)` that keeps the structural type-relation checks, in trace order. */
  function StructuredChecks(cats: CheckCategories, trace: seq<TraceEvent>): (checks: seq<TraceEvent>)
    ensures forall i :: 0 <= i < |checks| ==> IsStructuredCheck(cats, checks[i])
  {
    Filter(trace, CheckFilter(cats))
  }

  /** Every key of `index` names a position in `checks` whose subject is that key. */
  ghost predicate IndexInto(checks: seq<TraceEvent>, index: map<int, nat>)
  {
    forall id :: id in index ==> index[id] < |checks| && checks[index[id]].sourceId == id
  }

  /** `new Map(checks.map(({ args: { sourceId } }, index) => [sourceId, index]))`: entries are set left to right. */
  function BuildIndex(checks: seq<TraceEvent>): (index: map<int, nat>)
    ensures IndexInto(checks, index)
    decreases |checks|
  {
    if checks == [] then map[]
    else BuildIndex(checks[..|checks| - 1])[checks[|checks| - 1].sourceId := |checks| - 1]
  }

  /** `checks[index.get(id)]`, which is `undefined` when `id` is not a key. */
  function Lookup(checks: seq<TraceEvent>, index: map<int, nat>, id: int): (r: Option<TraceEvent>)
    requires IndexInto(checks, index)
    ensures r.Some? ==> r.value in checks && r.value.sourceId == id
  {
    if id in index then Some(checks[index[id]]) else None
  }

  function NewMetric(e: CatalogEntry, check: TraceEvent): (m: Metric)
    requires e.Symbol? && e.firstDeclaration.Some?
    ensures EntryOf(m) == e && m.check == check && FlagConsistent(m)
  {
    var decl := e.firstDeclaration.value;
    Metric(DeclaredSymbol(e.id, e.symbolName, decl), check, IsNodeModulePath(decl.path))
  }

  /** One pass of the loop body: nameless entries, undeclared symbols and unmeasured symbols are skipped. */
  function MetricFor(e: CatalogEntry, check: Option<TraceEvent>): (r: seq<Metric>)
    ensures |r| <= 1
  {
    if !e.Symbol? then []
    else if e.firstDeclaration.None? then []
    else if check.None? then []
    else [NewMetric(e, check.value)]
  }

  function ExtractWith(types: seq<CatalogEntry>, checks: seq<TraceEvent>, index: map<int, nat>): seq<Metric>
    requires IndexInto(checks, index)
    decreases |types|
  {
    if types == [] then []
    else
      var e := types[|types| - 1];
      ExtractWith(types[..|types| - 1], checks, index) + MetricFor(e, Lookup(checks, index, e.id))
  }

  /** The metric list the extractor returns, as a value. */
  function Metrics(cats: CheckCategories, trace: seq<TraceEvent>, types: seq<CatalogEntry>): seq<Metric>
  {
    var checks := StructuredChecks(cats, trace);
    ExtractWith(types, checks, BuildIndex(checks))
  }

  /**
   * The extractor: filters the checks, builds the `sourceId` index, then walks the catalog once,
   * appending a metric for every declared symbol whose id the index knows.
   */
  method SymbolCheckMetrics(cats: CheckCategories, trace: seq<TraceEvent>, types: seq<CatalogEntry>)
    returns (metrics: seq<Metric>)
    ensures metrics == Metrics(cats, trace, types)
  {
    var checks := StructuredChecks(cats, trace);
    var sourceIdIndexMap: map<int, nat> := map[];
    for i := 0 to |checks|
      invariant sourceIdIndexMap == BuildIndex(checks[..i])
    {
      assert checks[..i + 1][..i] == checks[..i];
      sourceIdIndexMap := sourceIdIndexMap[checks[i].sourceId := i];
    }
    assert checks[..|checks|] == checks;
    metrics := [];
    for j := 0 to |types|
      invariant metrics == ExtractWith(types[..j], checks, sourceIdIndexMap)
    {
      ExtractWithStep(types, j, checks, sourceIdIndexMap);
      var item := types[j];
      if !item.Symbol? {
        continue;
      }
      if item.firstDeclaration.None? {
        continue;
      }
      if item.id !in sourceIdIndexMap {
        continue;
      }
      var check := checks[sourceIdIndexMap[item.id]];
      metrics := metrics + [NewMetric(item, check)];
    }
    assert types[..|types|] == types;
  }

  /** One more catalog entry adds what `MetricFor` makes of it. */
  lemma ExtractWithStep(types: seq<CatalogEntry>, j: nat, checks: seq<TraceEvent>, index: map<int, nat>)
    requires IndexInto(checks, index) && j < |types|
    ensures ExtractWith(types[..j + 1], checks, index)
            == ExtractWith(types[..j], checks, index) + MetricFor(types[j], Lookup(checks, index, types[j].id))
  {
    assert types[..j + 1][..j] == types[..j];
  }

  // ---------------------------------------------------------------------------------------------
  // Reference definition: a linear scan of the trace per symbol, without the index.

  /** The last qualifying check in `trace` whose subject is `id`. */
  function LastCheck(cats: CheckCategories, trace: seq<TraceEvent>, id: int): Option<TraceEvent>
    decreases |trace|
  {
    if trace == [] then None
    else if Measures(cats, trace[|trace| - 1], id) then Some(trace[|trace| - 1])
    else LastCheck(cats, trace[..|trace| - 1], id)
  }

  function ScanMetrics(cats: CheckCategories, trace: seq<TraceEvent>, types: seq<CatalogEntry>): seq<Metric>
    decreases |types|
  {
    if types == [] then []
    else
      var e := types[|types| - 1];
      ScanMetrics(cats, trace, types[..|types| - 1]) + MetricFor(e, LastCheck(cats, trace, e.id))
  }

  /** Last write wins: `LastCheck` is the qualifying check for `id` that no later one overrides. */
  lemma {:induction false} LastCheckIsLast(cats: CheckCategories, trace: seq<TraceEvent>, id: int)
    ensures LastCheck(cats, trace, id).None? <==> forall i :: 0 <= i < |trace| ==> !Measures(cats, trace[i], id)
    ensures LastCheck(cats, trace, id).Some? ==>
              exists i :: 0 <= i < |trace| && trace[i] == LastCheck(cats, trace, id).value && Measures(cats, trace[i], id)
                && forall j :: i < j < |trace| ==> !Measures(cats, trace[j], id)
    decreases |trace|
  {
    if trace != [] {
      var n := |trace| - 1;
      if Measures(cats, trace[n], id) {
        assert trace[n] == LastCheck(cats, trace, id).value;
      } else {
        LastCheckIsLast(cats, trace[..n], id);
        if LastCheck(cats, trace, id).Some? {
          var i :| 0 <= i < n && trace[..n][i] == LastCheck(cats, trace, id).value && Measures(cats, trace[..n][i], id)
                   && forall j :: i < j < n ==> !Measures(cats, trace[..n][j], id);
          assert trace[i] == trace[..n][i];
          assert forall j :: i < j < |trace| ==> !Measures(cats, trace[j], id) by {
            forall j | i < j < |trace| ensures !Measures(cats, trace[j], id) {
              if j < n {
                assert trace[j] == trace[..n][j];
              }
            }
          }
        } else {
          forall i | 0 <= i < |trace| ensures !Measures(cats, trace[i], id) {
            if i < n {
              assert trace[i] == trace[..n][i];
            }
          }
        }
      }
    }
  }

  lemma StructuredChecksSnoc(cats: CheckCategories, trace: seq<TraceEvent>, e: TraceEvent)
    ensures StructuredChecks(cats, trace + [e])
            == StructuredChecks(cats, trace) + (if IsStructuredCheck(cats, e) then [e] else [])
  {
    FilterSnoc(trace, e, CheckFilter(cats));
  }

  lemma LookupSnoc(checks: seq<TraceEvent>, e: TraceEvent, id: int)
    ensures Lookup(checks + [e], BuildIndex(checks + [e]), id)
            == if e.sourceId == id then Some(e) else Lookup(checks, BuildIndex(checks), id)
  {
    var all := checks + [e];
    assert all[..|all| - 1] == checks;
    var index := BuildIndex(checks);
    assert BuildIndex(all) == index[e.sourceId := |checks|];
    if id != e.sourceId && id in index {
      assert all[index[id]] == checks[index[id]];
    }
  }

  /** Looking `id` up in the index gives the check the linear scan finds. */
  lemma {:induction false} IndexLookupIsLastCheck(cats: CheckCategories, trace: seq<TraceEvent>, id: int)
    ensures var checks := StructuredChecks(cats, trace);
            Lookup(checks, BuildIndex(checks), id) == LastCheck(cats, trace, id)
    decreases |trace|
  {
    if trace != [] {
      var n := |trace| - 1;
      var e := trace[n];
      assert trace == trace[..n] + [e];
      StructuredChecksSnoc(cats, trace[..n], e);
      IndexLookupIsLastCheck(cats, trace[..n], id);
      var checks, checks' := StructuredChecks(cats, trace), StructuredChecks(cats, trace[..n]);
      if IsStructuredCheck(cats, e) {
        assert checks == checks' + [e];
        LookupSnoc(checks', e, id);
      } else {
        assert checks == checks';
      }
    }
  }

  /** The index is a correct replacement for scanning the trace once per symbol. */
  lemma {:induction false} MetricsMatchScan(cats: CheckCategories, trace: seq<TraceEvent>, types: seq<CatalogEntry>)
    ensures Metrics(cats, trace, types) == ScanMetrics(cats, trace, types)
    decreases |types|
  {
    if types != [] {
      var e := types[|types| - 1];
      MetricsMatchScan(cats, trace, types[..|types| - 1]);
      IndexLookupIsLastCheck(cats, trace, e.id);
    }
  }

  // ---------------------------------------------------------------------------------------------
  // What the extracted list is.

  /** A catalog entry yields a metric: a symbol with a declaration that some qualifying check measured. */
  predicate Eligible(cats: CheckCategories, trace: seq<TraceEvent>, e: CatalogEntry)
  {
    e.Symbol? && e.firstDeclaration.Some? && LastCheck(cats, trace, e.id).Some?
  }

  function EligibleIn(cats: CheckCategories, trace: seq<TraceEvent>): CatalogEntry -> bool
  {
    e => Eligible(cats, trace, e)
  }

  /** The catalog entries the metrics were made from, in metric order. */
  function Entries(ms: seq<Metric>): (es: seq<CatalogEntry>)
    ensures |es| == |ms|
    decreases |ms|
  {
    if ms == [] then [] else Entries(ms[..|ms| - 1]) + [EntryOf(ms[|ms| - 1])]
  }

  lemma {:induction false} EntriesConcat(a: seq<Metric>, b: seq<Metric>)
    ensures Entries(a + b) == Entries(a) + Entries(b)
    decreases |b|
  {
    if b != [] {
      assert (a + b)[..|a + b| - 1] == a + b[..|b| - 1];
      EntriesConcat(a, b[..|b| - 1]);
    } else {
      assert a + b == a;
    }
  }

  /**
   * The metrics correspond one to one, in catalog order, to the eligible catalog entries: nameless entries,
   * symbols without a declaration and symbols no qualifying check measured are exactly the ones left out.
   */
  lemma {:induction false} MetricsAreEligibleEntries(cats: CheckCategories, trace: seq<TraceEvent>, types: seq<CatalogEntry>)
    ensures Entries(Metrics(cats, trace, types)) == Filter(types, EligibleIn(cats, trace))
    ensures SubSeq(Entries(Metrics(cats, trace, types)), types)
  {
    MetricsMatchScan(cats, trace, types);
    ScanEntries(cats, trace, types);
    FilterIsSubSeq(types, EligibleIn(cats, trace));
  }

  lemma {:induction false} ScanEntries(cats: CheckCategories, trace: seq<TraceEvent>, types: seq<CatalogEntry>)
    ensures Entries(ScanMetrics(cats, trace, types)) == Filter(types, EligibleIn(cats, trace))
    decreases |types|
  {
    if types != [] {
      var n := |types| - 1;
      var init, e := types[..n], types[n];
      var found := MetricFor(e, LastCheck(cats, trace, e.id));
      assert types == init + [e];
      assert ScanMetrics(cats, trace, types) == ScanMetrics(cats, trace, init) + found;
      ScanEntries(cats, trace, init);
      EntriesConcat(ScanMetrics(cats, trace, init), found);
      ScanStepEntries(cats, trace, e);
      FilterSnoc(init, e, EligibleIn(cats, trace));
    }
  }

  /** The scan turns one catalog entry into a metric exactly when the entry is eligible. */
  lemma ScanStepEntries(cats: CheckCategories, trace: seq<TraceEvent>, e: CatalogEntry)
    ensures Entries(MetricFor(e, LastCheck(cats, trace, e.id))) == if Eligible(cats, trace, e) then [e] else []
  {
    var found := MetricFor(e, LastCheck(cats, trace, e.id));
    if Eligible(cats, trace, e) {
      assert found[..0] == [];
    }
  }

  /**
   * Every metric pairs a symbol with the last qualifying check of the trace whose `sourceId` is the
   * symbol's id, and its `isNodeModule` flag agrees with its declaration path.
   */
  lemma MetricCheckIsLastMeasurement(cats: CheckCategories, trace: seq<TraceEvent>, types: seq<CatalogEntry>, k: nat)
    requires k < |Metrics(cats, trace, types)|
    ensures var m := Metrics(cats, trace, types)[k];
            && FlagConsistent(m)
            && exists i :: 0 <= i < |trace| && trace[i] == m.check && Measures(cats, trace[i], m.symbol.id)
                 && forall j :: i < j < |trace| ==> !Measures(cats, trace[j], m.symbol.id)
  {
    MetricsMatchScan(cats, trace, types);
    var m := Metrics(cats, trace, types)[k];
    ScanChecks(cats, trace, types, k);
    LastCheckIsLast(cats, trace, m.symbol.id);
  }

  lemma {:induction false} ScanChecks(cats: CheckCategories, trace: seq<TraceEvent>, types: seq<CatalogEntry>, k: nat)
    requires k < |ScanMetrics(cats, trace, types)|
    ensures var m := ScanMetrics(cats, trace, types)[k];
            FlagConsistent(m) && LastCheck(cats, trace, m.symbol.id) == Some(m.check)
    decreases |types|
  {
    var n := |types| - 1;
    var prefix := ScanMetrics(cats, trace, types[..n]);
    if k < |prefix| {
      ScanChecks(cats, trace, types[..n], k);
    }
  }

  /** Every metric is flagged consistently with its path (the property the later re-flagging relies on). */
  lemma MetricsFlagConsistent(cats: CheckCategories, trace: seq<TraceEvent>, types: seq<CatalogEntry>)
    ensures forall m :: m in Metrics(cats, trace, types) ==> FlagConsistent(m)
  {
    forall m | m in Metrics(cats, trace, types) ensures FlagConsistent(m) {
      var k :| 0 <= k < |Metrics(cats, trace, types)| && Metrics(cats, trace, types)[k] == m;
      MetricCheckIsLastMeasurement(cats, trace, types, k);
    }
  }

  // ---------------------------------------------------------------------------------------------
  // The glob filter both variants apply to the extracted metrics.

  function GlobFilter(matches: string -> bool): Metric -> bool
  {
    m => matches(PathOf(m))
  }

  /**
   * `metrics.filter(FilterByGlob(pattern))`, the glob match being the predicate `matches`: exactly the
   * metrics whose declaration path matches, in their original order.
   */
  function FilteredMetrics(ms: seq<Metric>, matches: string -> bool): (r: seq<Metric>)
    ensures forall m :: m in r <==> m in ms && matches(PathOf(m))
    ensures forall m :: multiset(r)[m] == if matches(PathOf(m)) then multiset(ms)[m] else 0
    ensures SubSeq(r, ms)
  {
    FilterMembers(ms, GlobFilter(matches));
    FilterCount(ms, GlobFilter(matches));
    FilterIsSubSeq(ms, GlobFilter(matches));
    Filter(ms, GlobFilter(matches))
  }
}
