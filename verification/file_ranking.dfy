/**
 * The report of tsRank.ts: metrics filtered by the glob, grouped by declaration file, files ordered
 * by their summed check duration and cut to FILE_LIMIT, each file's metrics ordered by duration and
 * cut to FILE_TYPE_LIMIT, and the printed files labelled by a counter that starts at FILE_LIMIT.
 */
module FileRanking {
  import opened Seqs
  import opened Sorting
  import opened TraceModel
  import opened Correlation

  /** One `[path, metrics]` entry of `Object.entries(groupBy(...))`. */
  datatype Group = Group(path: string, metrics: seq<Metric>)

  /** `sumByMetricDuration`. */
  function SumDur(ms: seq<Metric>): nat
  {
    SumBy(ms, Dur)
  }

  function GroupTotal(g: Group): nat
  {
    SumDur(g.metrics)
  }

  function OnPathFilter(path: string): Metric -> bool
  {
    m => PathOf(m) == path
  }

  /** The metrics of `ms` declared in `path`, in the order of `ms`. */
  function OnPath(ms: seq<Metric>, path: string): seq<Metric>
  {
    Filter(ms, OnPathFilter(path))
  }

  /** Where the group of `path` is, or `|gs|` when there is none yet. */
  function PathIndex(gs: seq<Group>, path: string): (i: nat)
    ensures i <= |gs|
    ensures i < |gs| ==> gs[i].path == path
    ensures forall j :: 0 <= j < i ==> gs[j].path != path
  {
    if gs == [] then 0
    else if gs[0].path == path then 0
    else 1 + PathIndex(gs[1..], path)
  }

  /** One step of lodash `groupBy`: push onto the key's group, or open a new group at the end. */
  function AddToGroups(gs: seq<Group>, m: Metric): seq<Group>
  {
    var i := PathIndex(gs, PathOf(m));
    if i < |gs| then gs[i := Group(gs[i].path, gs[i].metrics + [m])]
    else gs + [Group(PathOf(m), [m])]
  }

  /** `Object.entries(groupBy(ms, 'symbol.firstDeclaration.path'))`, groups in first-appearance order. */
  function GroupByPath(ms: seq<Metric>): seq<Group>
    decreases |ms|
  {
    if ms == [] then []
    else AddToGroups(GroupByPath(ms[..|ms| - 1]), ms[|ms| - 1])
  }

  /** Each group is non-empty and holds exactly the metrics of its path, in the order of `ms`. */
  ghost predicate GroupsExact(ms: seq<Metric>, gs: seq<Group>)
  {
    forall i :: 0 <= i < |gs| ==> gs[i].metrics != [] && gs[i].metrics == OnPath(ms, gs[i].path)
  }

  /** No path has two groups. */
  ghost predicate PathsDistinct(gs: seq<Group>)
  {
    forall i, j :: 0 <= i < j < |gs| ==> gs[i].path != gs[j].path
  }

  /** Every metric's path has a group. */
  ghost predicate GroupsCover(ms: seq<Metric>, gs: seq<Group>)
  {
    forall m :: m in ms ==> exists i :: 0 <= i < |gs| && gs[i].path == PathOf(m)
  }

  /** `gs` splits `ms` by path: one non-empty group per path, holding that path's metrics in order. */
  ghost predicate IsPathGrouping(ms: seq<Metric>, gs: seq<Group>)
  {
    GroupsExact(ms, gs) && PathsDistinct(gs) && GroupsCover(ms, gs)
  }

  lemma OnPathSnoc(ms: seq<Metric>, m: Metric, path: string)
    ensures OnPath(ms + [m], path) == OnPath(ms, path) + (if PathOf(m) == path then [m] else [])
  {
    FilterSnoc(ms, m, OnPathFilter(path));
  }

  lemma SumDurSnoc(ms: seq<Metric>, m: Metric)
    ensures SumDur(ms + [m]) == SumDur(ms) + Dur(m)
  {
    assert (ms + [m])[..|ms|] == ms;
  }

  /** A path without a group has no metrics. */
  lemma NoGroupNoMetrics(ms: seq<Metric>, gs: seq<Group>, path: string)
    requires GroupsCover(ms, gs)
    requires forall j :: 0 <= j < |gs| ==> gs[j].path != path
    ensures OnPath(ms, path) == []
  {
    forall x | x in ms ensures !OnPathFilter(path)(x) {
      var j :| 0 <= j < |gs| && gs[j].path == PathOf(x);
    }
    FilterNone(ms, OnPathFilter(path));
  }

  /** Appending a metric leaves the groups of other paths exact. */
  lemma OtherGroupUnchanged(ms: seq<Metric>, m: Metric, g: Group)
    requires g.metrics != [] && g.metrics == OnPath(ms, g.path) && g.path != PathOf(m)
    ensures g.metrics == OnPath(ms + [m], g.path)
  {
    OnPathSnoc(ms, m, g.path);
  }

  lemma GroupsCoverSnoc(ms: seq<Metric>, gs: seq<Group>, m: Metric, r: seq<Group>, i: nat)
    requires GroupsCover(ms, gs)
    requires |gs| <= |r| && i < |r| && r[i].path == PathOf(m)
    requires forall j :: 0 <= j < |gs| ==> r[j].path == gs[j].path
    ensures GroupsCover(ms + [m], r)
  {
    forall x | x in ms + [m] ensures exists j :: 0 <= j < |r| && r[j].path == PathOf(x) {
      if x != m {
        assert x in ms;
        var j :| 0 <= j < |gs| && gs[j].path == PathOf(x);
        assert r[j].path == PathOf(x);
      }
    }
  }

  lemma ExistingGroupExact(ms: seq<Metric>, gs: seq<Group>, m: Metric, i: nat)
    requires GroupsExact(ms, gs) && PathsDistinct(gs)
    requires i < |gs| && gs[i].path == PathOf(m)
    ensures GroupsExact(ms + [m], gs[i := Group(gs[i].path, gs[i].metrics + [m])])
  {
    var r := gs[i := Group(gs[i].path, gs[i].metrics + [m])];
    forall j | 0 <= j < |r| ensures r[j].metrics != [] && r[j].metrics == OnPath(ms + [m], r[j].path) {
      if j == i {
        OnPathSnoc(ms, m, r[j].path);
      } else {
        assert r[j] == gs[j] && gs[j].path != gs[i].path;
        OtherGroupUnchanged(ms, m, gs[j]);
      }
    }
  }

  lemma {:induction false} AddToExistingGroup(ms: seq<Metric>, gs: seq<Group>, m: Metric)
    requires IsPathGrouping(ms, gs)
    requires PathIndex(gs, PathOf(m)) < |gs|
    ensures IsPathGrouping(ms + [m], AddToGroups(gs, m))
    ensures SumBy(AddToGroups(gs, m), GroupTotal) == SumBy(gs, GroupTotal) + Dur(m)
  {
    var i := PathIndex(gs, PathOf(m));
    var g := Group(gs[i].path, gs[i].metrics + [m]);
    var r := gs[i := g];
    assert AddToGroups(gs, m) == r;
    ExistingGroupExact(ms, gs, m, i);
    assert PathsDistinct(r) by {
      forall a, b | 0 <= a < b < |r| ensures r[a].path != r[b].path {
        assert r[a].path == gs[a].path && r[b].path == gs[b].path;
      }
    }
    GroupsCoverSnoc(ms, gs, m, r, i);
    SumByUpdate(gs, i, g, GroupTotal);
    SumDurSnoc(gs[i].metrics, m);
  }

  lemma NewGroupExact(ms: seq<Metric>, gs: seq<Group>, m: Metric)
    requires GroupsExact(ms, gs) && GroupsCover(ms, gs)
    requires forall j :: 0 <= j < |gs| ==> gs[j].path != PathOf(m)
    ensures GroupsExact(ms + [m], gs + [Group(PathOf(m), [m])])
  {
    var r := gs + [Group(PathOf(m), [m])];
    forall j | 0 <= j < |r| ensures r[j].metrics != [] && r[j].metrics == OnPath(ms + [m], r[j].path) {
      if j < |gs| {
        assert r[j] == gs[j];
        OtherGroupUnchanged(ms, m, gs[j]);
      } else {
        NoGroupNoMetrics(ms, gs, PathOf(m));
        OnPathSnoc(ms, m, PathOf(m));
      }
    }
  }

  lemma {:induction false} AddNewGroup(ms: seq<Metric>, gs: seq<Group>, m: Metric)
    requires IsPathGrouping(ms, gs)
    requires PathIndex(gs, PathOf(m)) == |gs|
    ensures IsPathGrouping(ms + [m], AddToGroups(gs, m))
    ensures SumBy(AddToGroups(gs, m), GroupTotal) == SumBy(gs, GroupTotal) + Dur(m)
  {
    var g := Group(PathOf(m), [m]);
    assert AddToGroups(gs, m) == gs + [g];
    NewGroupExact(ms, gs, m);
    NewGroupDistinct(gs, g);
    GroupsCoverSnoc(ms, gs, m, gs + [g], |gs|);
    NewGroupSum(gs, m);
  }

  lemma NewGroupDistinct(gs: seq<Group>, g: Group)
    requires PathsDistinct(gs)
    requires forall j :: 0 <= j < |gs| ==> gs[j].path != g.path
    ensures PathsDistinct(gs + [g])
  {
    var r := gs + [g];
    forall a, b | 0 <= a < b < |r| ensures r[a].path != r[b].path {
      assert r[a] == gs[a];
    }
  }

  lemma NewGroupSum(gs: seq<Group>, m: Metric)
    ensures SumBy(gs + [Group(PathOf(m), [m])], GroupTotal) == SumBy(gs, GroupTotal) + Dur(m)
  {
    var r := gs + [Group(PathOf(m), [m])];
    assert r[..|gs|] == gs;
    assert [m][..0] == [];
    assert GroupTotal(r[|gs|]) == SumBy([m][..0], Dur) + Dur(m) == Dur(m);
  }

  /** Some metric declared in `p` comes before every metric declared in `q`. */
  ghost predicate PathBefore(ms: seq<Metric>, p: string, q: string)
  {
    exists a :: 0 <= a < |ms| && PathOf(ms[a]) == p && forall b :: 0 <= b <= a ==> PathOf(ms[b]) != q
  }

  /** The groups come in the order in which their paths first appear in `ms`. */
  ghost predicate FirstAppearanceOrder(ms: seq<Metric>, gs: seq<Group>)
  {
    forall i, j :: 0 <= i < j < |gs| ==> PathBefore(ms, gs[i].path, gs[j].path)
  }

  lemma PathBeforeSnoc(ms: seq<Metric>, m: Metric, p: string, q: string)
    requires PathBefore(ms, p, q)
    ensures PathBefore(ms + [m], p, q)
  {
    var a :| 0 <= a < |ms| && PathOf(ms[a]) == p && forall b :: 0 <= b <= a ==> PathOf(ms[b]) != q;
    var all := ms + [m];
    assert all[a] == ms[a];
    forall b | 0 <= b <= a ensures PathOf(all[b]) != q {
      assert all[b] == ms[b];
    }
  }

  /** A path that has a group appears before any path that has none. */
  lemma PathBeforeNewPath(ms: seq<Metric>, gs: seq<Group>, i: nat, q: string)
    requires GroupsExact(ms, gs) && GroupsCover(ms, gs)
    requires i < |gs|
    requires forall j :: 0 <= j < |gs| ==> gs[j].path != q
    ensures PathBefore(ms, gs[i].path, q)
  {
    var p := gs[i].path;
    FilterMembers(ms, OnPathFilter(p));
    var x := gs[i].metrics[0];
    assert x in OnPath(ms, p);
    var a :| 0 <= a < |ms| && ms[a] == x;
    forall b | 0 <= b <= a ensures PathOf(ms[b]) != q {
      assert ms[b] in ms;
      var j :| 0 <= j < |gs| && gs[j].path == PathOf(ms[b]);
    }
  }

  /** Adding a metric keeps the groups in first-appearance order; a new path's group goes last. */
  lemma AddToGroupsKeepsOrder(ms: seq<Metric>, gs: seq<Group>, m: Metric)
    requires IsPathGrouping(ms, gs) && FirstAppearanceOrder(ms, gs)
    ensures FirstAppearanceOrder(ms + [m], AddToGroups(gs, m))
  {
    var r := AddToGroups(gs, m);
    var i := PathIndex(gs, PathOf(m));
    if i < |gs| {
      assert |r| == |gs| && forall k :: 0 <= k < |gs| ==> r[k].path == gs[k].path;
    } else {
      assert r == gs + [Group(PathOf(m), [m])];
    }
    forall a, b | 0 <= a < b < |r| ensures PathBefore(ms + [m], r[a].path, r[b].path) {
      if b < |gs| {
        assert r[a].path == gs[a].path && r[b].path == gs[b].path;
        PathBeforeSnoc(ms, m, gs[a].path, gs[b].path);
      } else {
        assert r[a] == gs[a] && r[b].path == PathOf(m);
        PathBeforeNewPath(ms, gs, a, PathOf(m));
        PathBeforeSnoc(ms, m, gs[a].path, PathOf(m));
      }
    }
  }

  /**
   * Grouping by declaration path partitions the metrics: each group is non-empty and holds exactly
   * the metrics of its path, no path has two groups, every metric has its group, and the group
   * totals add up to `sumByMetricDuration` of the whole list.
   */
  lemma {:induction false} GroupByPathPartitions(ms: seq<Metric>)
    ensures IsPathGrouping(ms, GroupByPath(ms))
    ensures FirstAppearanceOrder(ms, GroupByPath(ms))
    ensures SumBy(GroupByPath(ms), GroupTotal) == SumDur(ms)
    decreases |ms|
  {
    if ms != [] {
      var n := |ms| - 1;
      var init, m := ms[..n], ms[n];
      var gs := GroupByPath(init);
      assert ms == init + [m];
      assert GroupByPath(ms) == AddToGroups(gs, m);
      GroupByPathPartitions(init);
      AddToGroupsKeepsOrder(init, gs, m);
      SumDurSnoc(init, m);
      if PathIndex(gs, PathOf(m)) < |gs| {
        AddToExistingGroup(init, gs, m);
      } else {
        AddNewGroup(init, gs, m);
      }
    }
  }

  /** `sortBy(metricsByPath, ([path, metrics]) => sumByMetricDuration(metrics)).reverse()`. */
  function OrderedGroups(gs: seq<Group>): seq<Group>
  {
    Reverse(SortBy(gs, GroupTotal, Asc))
  }

  /**
   * The files come out by non-increasing total, as a permutation of the groups with the same grand
   * total; files of equal total come out in the reverse of their discovery order, because the stable
   * ascending sort is reversed.
   */
  lemma OrderedGroupsRanked(gs: seq<Group>)
    ensures Ordered(OrderedGroups(gs), GroupTotal, Desc)
    ensures multiset(OrderedGroups(gs)) == multiset(gs)
    ensures forall t: nat :: WithKey(OrderedGroups(gs), GroupTotal, t) == Reverse(WithKey(gs, GroupTotal, t))
    ensures SumBy(OrderedGroups(gs), GroupTotal) == SumBy(gs, GroupTotal)
  {
    var sorted := SortBy(gs, GroupTotal, Asc);
    SortByOrdered(gs, GroupTotal, Asc);
    SortByPermutes(gs, GroupTotal, Asc);
    ReverseOrdered(sorted, GroupTotal);
    forall t: nat ensures WithKey(OrderedGroups(gs), GroupTotal, t) == Reverse(WithKey(gs, GroupTotal, t)) {
      FilterReverse(sorted, HasKey(GroupTotal, t));
      SortByStable(gs, GroupTotal, Asc, t);
    }
    ReversePermutes(sorted);
    SumByPermutation(OrderedGroups(gs), gs, GroupTotal);
  }

  /** `orderedMetrics.slice(0, FILE_LIMIT).reverse()`: the files printed, cheapest first. */
  function ShownGroups(ordered: seq<Group>, fileLimit: int): seq<Group>
  {
    Reverse(Slice(ordered, fileLimit))
  }

  /**
   * At most FILE_LIMIT files are printed; they are the first files of the ranking, printed in
   * reverse, so totals rise down the listing, and no file left out costs more than a printed one.
   */
  lemma ShownGroupsAreTop(ordered: seq<Group>, fileLimit: int)
    requires Ordered(ordered, GroupTotal, Desc)
    ensures 0 <= fileLimit ==> |ShownGroups(ordered, fileLimit)| == Min(fileLimit, |ordered|)
    ensures forall k :: 0 <= k < |ShownGroups(ordered, fileLimit)| ==>
              ShownGroups(ordered, fileLimit)[k] == ordered[|ShownGroups(ordered, fileLimit)| - 1 - k]
    ensures Ordered(ShownGroups(ordered, fileLimit), GroupTotal, Asc)
    ensures forall k, j :: 0 <= k < |ShownGroups(ordered, fileLimit)| <= j < |ordered| ==>
              GroupTotal(ordered[j]) <= GroupTotal(ShownGroups(ordered, fileLimit)[k])
  {
    var shown := ShownGroups(ordered, fileLimit);
    var n := |shown|;
    forall i, j | 0 <= i < j < n ensures InOrder(GroupTotal(shown[i]), GroupTotal(shown[j]), Asc) {
      assert shown[i] == ordered[n - 1 - i] && shown[j] == ordered[n - 1 - j];
    }
    forall k, j | 0 <= k < n <= j < |ordered| ensures GroupTotal(ordered[j]) <= GroupTotal(shown[k]) {
      assert shown[k] == ordered[n - 1 - k];
    }
  }

  /**
   * The label counter: with at least FILE_LIMIT files, the file printed with label L is the L-th
   * costliest, so the listing counts down to `# 1`.
   */
  lemma LabelIsRank(ordered: seq<Group>, fileLimit: int, k: nat)
    requires 0 <= fileLimit <= |ordered|
    requires k < fileLimit
    ensures k < |ShownGroups(ordered, fileLimit)|
    ensures ShownGroups(ordered, fileLimit)[k] == ordered[(fileLimit - k) - 1]
  {
  }

  /** One printed file: rank label, path, summed duration, metric count and its top metrics. */
  datatype FileEntry = FileEntry(rankLabel: int, path: string, total: nat, metricCount: nat, top: seq<Metric>)

  /** `orderBy(metrics, ['check.dur'], 'desc').slice(0, FILE_TYPE_LIMIT)` for one file. */
  function FileEntryFor(g: Group, rankLabel: int, fileTypeLimit: int): FileEntry
  {
    FileEntry(rankLabel, g.path, GroupTotal(g), |g.metrics|, Top(g.metrics, Dur, fileTypeLimit))
  }

  /**
   * The `forEach` over the printed files: `fileCount` starts at FILE_LIMIT + 1 and is decremented
   * before each file is printed with it.
   */
  method LabelFiles(shown: seq<Group>, fileLimit: int, fileTypeLimit: int) returns (entries: seq<FileEntry>)
    ensures |entries| == |shown|
    ensures forall k :: 0 <= k < |shown| ==> entries[k] == FileEntryFor(shown[k], fileLimit - k, fileTypeLimit)
  {
    var fileCount := fileLimit + 1;
    entries := [];
    for k := 0 to |shown|
      invariant fileCount == fileLimit + 1 - k
      invariant |entries| == k
      invariant forall i :: 0 <= i < k ==> entries[i] == FileEntryFor(shown[i], fileLimit - i, fileTypeLimit)
    {
      fileCount := fileCount - 1;
      entries := entries + [FileEntryFor(shown[k], fileCount, fileTypeLimit)];
    }
  }

  /** What the report prints: input sizes, the metric count, the grand total and the ranked files. */
  datatype FileReport = FileReport(traceCount: nat, typeCount: nat, metricCount: nat, durationTotal: nat, files: seq<FileEntry>)

  /** The main pipeline of tsRank.ts on already-loaded inputs. */
  method RankFiles(trace: seq<TraceEvent>, types: seq<CatalogEntry>, matches: string -> bool,
                   fileLimit: int, fileTypeLimit: int) returns (report: FileReport)
    ensures report.traceCount == |trace| && report.typeCount == |types|
    ensures report.metricCount == |Metrics(CheckOrCheckTypes, trace, types)|
    ensures var filtered := FilteredMetrics(Metrics(CheckOrCheckTypes, trace, types), matches);
            var shown := ShownGroups(OrderedGroups(GroupByPath(filtered)), fileLimit);
            && report.durationTotal == SumDur(filtered)
            && |report.files| == |shown|
            && forall k :: 0 <= k < |shown| ==> report.files[k] == FileEntryFor(shown[k], fileLimit - k, fileTypeLimit)
  {
    var checkMetrics := SymbolCheckMetrics(CheckOrCheckTypes, trace, types);
    var filteredCheckMetrics := FilteredMetrics(checkMetrics, matches);
    var durationTotal := SumDur(filteredCheckMetrics);
    var metricsByPath := GroupByPath(filteredCheckMetrics);
    var orderedMetrics := OrderedGroups(metricsByPath);
    var files := LabelFiles(ShownGroups(orderedMetrics, fileLimit), fileLimit, fileTypeLimit);
    report := FileReport(|trace|, |types|, |checkMetrics|, durationTotal, files);
  }

  /**
   * Each printed file is one of the path groups of the filtered metrics: its total is the summed
   * duration of that file's metrics, it has at least one metric, and its listed metrics are that
   * file's costliest, by non-increasing duration.
   */
  lemma PrintedFileDescribesItsPath(filtered: seq<Metric>, fileLimit: int, fileTypeLimit: int, k: nat)
    requires k < |ShownGroups(OrderedGroups(GroupByPath(filtered)), fileLimit)|
    ensures var g := ShownGroups(OrderedGroups(GroupByPath(filtered)), fileLimit)[k];
            var e := FileEntryFor(g, fileLimit - k, fileTypeLimit);
            && e.total == SumDur(OnPath(filtered, e.path))
            && e.metricCount == |OnPath(filtered, e.path)| > 0
            && e.top == Top(OnPath(filtered, e.path), Dur, fileTypeLimit)
            && (0 <= fileTypeLimit ==> |e.top| == Min(fileTypeLimit, e.metricCount))
            && Ordered(e.top, Dur, Desc)
            && multiset(e.top) <= multiset(OnPath(filtered, e.path))
            && (forall d: nat :: WithKey(e.top, Dur, d) <= WithKey(OnPath(filtered, e.path), Dur, d))
            && (forall x, i :: x in multiset(OnPath(filtered, e.path)) - multiset(e.top) && 0 <= i < |e.top|
                  ==> Dur(x) <= Dur(e.top[i]))
  {
    var gs := GroupByPath(filtered);
    var g := ShownGroups(OrderedGroups(gs), fileLimit)[k];
    ShownGroupIsAGroup(gs, fileLimit, k);
    GroupByPathPartitions(filtered);
    var i :| 0 <= i < |gs| && gs[i] == g;
    assert g.metrics == OnPath(filtered, g.path) && g.metrics != [];
    TopRanked(g.metrics, Dur, fileTypeLimit);
    SortByPermutes(g.metrics, Dur, Desc);
    assert |SortBy(g.metrics, Dur, Desc)| == |g.metrics|;
  }

  /** Every printed file is one of the groups. */
  lemma ShownGroupIsAGroup(gs: seq<Group>, fileLimit: int, k: nat)
    requires k < |ShownGroups(OrderedGroups(gs), fileLimit)|
    ensures ShownGroups(OrderedGroups(gs), fileLimit)[k] in gs
  {
    var sorted := SortBy(gs, GroupTotal, Asc);
    var ordered := Reverse(sorted);
    var kept := Slice(ordered, fileLimit);
    var j := |kept| - 1 - k;
    assert ShownGroups(ordered, fileLimit)[k] == kept[j];
    assert kept[j] == ordered[j];
    assert ordered[j] == sorted[|sorted| - 1 - j];
    SortByPermutes(gs, GroupTotal, Asc);
    assert sorted[|sorted| - 1 - j] in multiset(sorted);
  }
}
