/**
 * `DataframeOperator`: the per-tree table of the dashboard. One row per
 * estimator with its size, feature importances and flattened classification
 * report; the cluster column relabelled (`-1` becomes `"Noise"`), the
 * silhouette of noise trees forced to `-1`, and a grid cell per tree id.
 */
module DataframeOperator {
  import opened Wrappers
  import opened Decimal
  import Scoring

  // ---- cluster column ----

  const NoiseName: string := "Noise"

  /** `"Noise" if x == -1 else x`, then `astype("str")`. */
  function ClusterName(clusterId: int): (r: string)
    ensures r == NoiseName <==> clusterId == Scoring.Noise
  {
    if clusterId == Scoring.Noise then NoiseName else IntToString(clusterId)
  }

  /** Any other cluster id is written as its decimal text and reads back as itself. */
  lemma ClusterNameReadsBack(clusterId: int)
    requires clusterId != Scoring.Noise
    ensures ParseInt(ClusterName(clusterId)) == Some(clusterId)
  {
    ParseIntToString(clusterId);
  }

  /** The relabelled `cluster` column: one entry per tree, `"Noise"` exactly at the noise trees. */
  function ClusterColumn(labels: seq<int>): (r: seq<string>)
    ensures |r| == |labels|
    ensures forall i :: 0 <= i < |r| ==> (r[i] == NoiseName <==> labels[i] == Scoring.Noise)
  {
    seq(|labels|, i requires 0 <= i < |labels| => ClusterName(labels[i]))
  }

  /** Every entry of the column that is not `"Noise"` reads back as the tree's label. */
  lemma ClusterColumnReadsBack(labels: seq<int>)
    ensures forall i :: 0 <= i < |labels| && labels[i] != Scoring.Noise ==>
      ParseInt(ClusterColumn(labels)[i]) == Some(labels[i])
  {
    forall i | 0 <= i < |labels| && labels[i] != Scoring.Noise
      ensures ParseInt(ClusterColumn(labels)[i]) == Some(labels[i])
    {
      ClusterNameReadsBack(labels[i]);
    }
  }

  // ---- silhouette override ----

  /** The `Silhouette Score` column after `tree_df.loc[tree_df.cluster == "Noise", ...] = -1`. */
  function NoiseScoresOverridden(cluster: seq<string>, scores: seq<real>): (r: seq<real>)
    requires |scores| == |cluster|
  {
    seq(|scores|, i requires 0 <= i < |scores| => if cluster[i] == NoiseName then -1.0 else scores[i])
  }

  /** On the relabelled column, exactly the trees DBSCAN left as noise score `-1`; the others keep their silhouette. */
  lemma NoiseOverrideByLabel(labels: seq<int>, scores: seq<real>)
    requires |scores| == |labels|
    ensures var r := NoiseScoresOverridden(ClusterColumn(labels), scores);
      && |r| == |labels|
      && (forall i :: 0 <= i < |r| && labels[i] == Scoring.Noise ==> r[i] == -1.0)
      && (forall i :: 0 <= i < |r| && labels[i] != Scoring.Noise ==> r[i] == scores[i])
  {
  }

  /** Overriding twice is overriding once. */
  lemma NoiseOverrideIdempotent(cluster: seq<string>, scores: seq<real>)
    requires |scores| == |cluster|
    ensures NoiseScoresOverridden(cluster, NoiseScoresOverridden(cluster, scores)) == NoiseScoresOverridden(cluster, scores)
  {
  }

  /** The in-place assignment of `-1` to the noise rows of the score column. */
  method OverrideNoiseSilhouettes(cluster: seq<string>, scores: array<real>)
    requires scores.Length == |cluster|
    modifies scores
    ensures scores[..] == NoiseScoresOverridden(cluster, old(scores[..]))
  {
    for i := 0 to scores.Length
      invariant scores[..i] == NoiseScoresOverridden(cluster, old(scores[..]))[..i]
      invariant scores[i..] == old(scores[..])[i..]
    {
      if cluster[i] == NoiseName {
        scores[i] := -1.0;
      }
      assert scores[i + 1..] == old(scores[..])[i + 1..];
    }
  }

  // ---- grid coordinates ----

  /** `str(x)[-1:]`. */
  function GridX(tree: nat): (r: string)
    ensures |r| == 1 && IsDigit(r[0])
  {
    var s := NatToString(tree);
    s[|s| - 1..]
  }

  /** `int(str(x)[:1] if x > 9 else 0)`. */
  function GridY(tree: nat): (r: nat)
    ensures r <= 9
  {
    if tree > 9 then DigitValue(NatToString(tree)[0]) else 0
  }

  /** `grid_x` is the last decimal digit of the tree id, as one character. */
  lemma GridXIsLastDigit(tree: nat)
    ensures GridX(tree) == [DigitChar(tree % 10)]
  {
  }

  /**
   * `grid_y` is 0 up to 9 and the leading decimal digit from 10 on: always in
   * 1..9 there, and the tens digit for two-digit ids.
   */
  lemma GridYIsLeadingDigit(tree: nat)
    ensures tree <= 9 ==> GridY(tree) == 0
    ensures tree >= 10 ==> 1 <= GridY(tree) <= 9 && GridY(tree) == LeadingDigit(tree)
    ensures 10 <= tree < 100 ==> GridY(tree) == tree / 10
  {
    FirstCharIsLeadingDigit(tree);
  }

  /** Below 100 no two trees share a grid cell. */
  lemma GridCellsDistinctBelow100(a: nat, b: nat)
    requires a < 100 && b < 100 && a != b
    ensures GridX(a) != GridX(b) || GridY(a) != GridY(b)
  {
    GridXIsLastDigit(a);
    GridXIsLastDigit(b);
    GridYIsLeadingDigit(a);
    GridYIsLeadingDigit(b);
    if a % 10 == b % 10 {
      assert a / 10 != b / 10;
    } else {
      assert DigitValue(DigitChar(a % 10)) != DigitValue(DigitChar(b % 10));
      assert GridX(a)[0] != GridX(b)[0];
    }
  }

  /** From 100 trees on cells are shared: tree 10 and tree 100 both sit at (`"0"`, 1). */
  lemma GridCellsCollideFrom100()
    ensures GridX(10) == GridX(100) == "0" && GridY(10) == GridY(100) == 1
  {
    GridXIsLastDigit(10);
    GridXIsLastDigit(100);
    GridYIsLeadingDigit(10);
    GridYIsLeadingDigit(100);
    assert LeadingDigit(100) == 1;
  }

  // ---- rows as dictionaries ----

  type Pairs = seq<(string, real)>

  /** No key occurs twice. */
  predicate DistinctKeys(ps: Pairs)
  {
    forall i, j :: 0 <= i < j < |ps| ==> ps[i].0 != ps[j].0
  }

  /** `dict(pairs)`: a later pair with the same key wins. */
  function PairsToMap(ps: Pairs): (m: map<string, real>)
    ensures forall k :: k in m <==> exists i :: 0 <= i < |ps| && ps[i].0 == k
  {
    if ps == [] then map[]
    else
      var m0 := PairsToMap(ps[..|ps| - 1]);
      assert forall i :: 0 <= i < |ps| - 1 ==> ps[..|ps| - 1][i] == ps[i];
      m0[ps[|ps| - 1].0 := ps[|ps| - 1].1]
  }

  /** The value under a key is the one of its last pair. */
  lemma {:induction false} PairsToMapLast(ps: Pairs, i: nat)
    requires i < |ps|
    requires forall j :: i < j < |ps| ==> ps[j].0 != ps[i].0
    ensures PairsToMap(ps)[ps[i].0] == ps[i].1
  {
    if i < |ps| - 1 {
      var init := ps[..|ps| - 1];
      assert init[i] == ps[i];
      PairsToMapLast(init, i);
    }
  }

  /** With distinct keys every pair lands in the dictionary. */
  lemma DistinctPairsLand(ps: Pairs)
    requires DistinctKeys(ps)
    ensures forall i :: 0 <= i < |ps| ==> ps[i].0 in PairsToMap(ps) && PairsToMap(ps)[ps[i].0] == ps[i].1
  {
    forall i | 0 <= i < |ps| ensures PairsToMap(ps)[ps[i].0] == ps[i].1 {
      PairsToMapLast(ps, i);
    }
  }

  lemma PairsToMapSnoc(ps: Pairs, p: (string, real))
    ensures PairsToMap(ps + [p]) == PairsToMap(ps)[p.0 := p.1]
  {
    assert (ps + [p])[..|ps|] == ps;
  }

  lemma {:induction false} PairsToMapCons(p: (string, real), qs: Pairs)
    ensures PairsToMap([p] + qs) == map[p.0 := p.1] + PairsToMap(qs)
  {
    if qs != [] {
      var init, last := qs[..|qs| - 1], qs[|qs| - 1];
      assert [p] + qs == ([p] + init) + [last];
      PairsToMapCons(p, init);
      PairsToMapSnoc([p] + init, last);
      PairsToMapSnoc(init, last);
    }
  }

  /** `dict(ps + qs)` is `dict(ps)` updated with `dict(qs)`. */
  lemma {:induction false} PairsToMapAppend(ps: Pairs, qs: Pairs)
    ensures PairsToMap(ps + qs) == PairsToMap(ps) + PairsToMap(qs)
  {
    if qs != [] {
      var init, last := qs[..|qs| - 1], qs[|qs| - 1];
      assert ps + qs == (ps + init) + [last];
      PairsToMapAppend(ps, init);
      PairsToMapSnoc(ps + init, last);
      PairsToMapSnoc(init, last);
      MergeUpdate(PairsToMap(ps), PairsToMap(init), last.0, last.1);
    } else {
      assert ps + qs == ps;
    }
  }

  lemma MergeAssociates(a: map<string, real>, b: map<string, real>, c: map<string, real>)
    ensures (a + b) + c == a + (b + c)
  {
  }

  lemma MergeShift(c: map<string, real>, k: string, v: real, m: map<string, real>)
    ensures c[k := v] + m == c + (map[k := v] + m)
  {
  }

  lemma MergeUpdate(c: map<string, real>, m: map<string, real>, k: string, v: real)
    ensures (c + m)[k := v] == c + m[k := v]
  {
  }

  /** The writes `row[k] = v` done one after the other, first pair first. */
  function ApplyUpdates(c: map<string, real>, ps: Pairs): map<string, real>
    decreases |ps|
  {
    if ps == [] then c else ApplyUpdates(c[ps[0].0 := ps[0].1], ps[1..])
  }

  /** Writing the pairs one by one is `row.update(dict(pairs))`. */
  lemma {:induction false} UpdatesAreMerge(c: map<string, real>, ps: Pairs)
    ensures ApplyUpdates(c, ps) == c + PairsToMap(ps)
    decreases |ps|
  {
    if ps != [] {
      UpdatesAreMerge(c[ps[0].0 := ps[0].1], ps[1..]);
      assert ps == [ps[0]] + ps[1..];
      PairsToMapCons(ps[0], ps[1..]);
      MergeShift(c, ps[0].0, ps[0].1, PairsToMap(ps[1..]));
    }
  }

  /** A key that no pair writes keeps its entry, or its absence. */
  lemma UntouchedKey(c: map<string, real>, ps: Pairs, k: string)
    requires forall i :: 0 <= i < |ps| ==> ps[i].0 != k
    ensures k in ApplyUpdates(c, ps) <==> k in c
    ensures k in c ==> ApplyUpdates(c, ps)[k] == c[k]
  {
    UpdatesAreMerge(c, ps);
  }

  // ---- classification report ----

  /** A report entry: a scalar such as `accuracy`, or a dictionary of per-label values. */
  datatype ReportValue = Scalar(x: real) | Nested(entries: Pairs)

  /** `classification_report(..., output_dict=True)`, in its iteration order. */
  type Report = seq<(string, ReportValue)>

  /** `f"{metric}_{label}"` for each label of a nested entry. */
  function NestedPairs(metric: string, es: Pairs): (r: Pairs)
    ensures |r| == |es|
  {
    seq(|es|, t requires 0 <= t < |es| => (metric + "_" + es[t].0, es[t].1))
  }

  function EntryPairs(metric: string, v: ReportValue): Pairs
  {
    match v
    case Scalar(x) => [(metric, x)]
    case Nested(es) => NestedPairs(metric, es)
  }

  /** The writes the report loop makes, in order. */
  function FlattenReport(report: Report): Pairs
  {
    if report == [] then []
    else FlattenReport(report[..|report| - 1]) + EntryPairs(report[|report| - 1].0, report[|report| - 1].1)
  }

  /** A flattened write comes from one report entry: its metric name alone, or metric, `_` and label. */
  lemma {:induction false} FlattenReportMembership(report: Report, p: (string, real))
    ensures p in FlattenReport(report) <==> exists j :: 0 <= j < |report| && p in EntryPairs(report[j].0, report[j].1)
  {
    if report != [] {
      var init := report[..|report| - 1];
      FlattenReportMembership(init, p);
      assert forall j :: 0 <= j < |init| ==> init[j] == report[j];
    }
  }

  /** A nested value `v` under metric `m` and label `l` is written to `m + "_" + l`, a scalar to `m`. */
  lemma ReportEntryWrites(report: Report, j: nat)
    requires j < |report|
    ensures report[j].1.Scalar? ==> (report[j].0, report[j].1.x) in FlattenReport(report)
    ensures report[j].1.Nested? ==> forall t :: 0 <= t < |report[j].1.entries| ==>
      (report[j].0 + "_" + report[j].1.entries[t].0, report[j].1.entries[t].1) in FlattenReport(report)
  {
    var m, v := report[j].0, report[j].1;
    if v.Scalar? {
      FlattenReportMembership(report, (m, v.x));
    } else {
      forall t | 0 <= t < |v.entries| ensures (m + "_" + v.entries[t].0, v.entries[t].1) in FlattenReport(report) {
        assert NestedPairs(m, v.entries)[t] == (m + "_" + v.entries[t].0, v.entries[t].1);
        FlattenReportMembership(report, (m + "_" + v.entries[t].0, v.entries[t].1));
      }
    }
  }

  /** With no two writes to one key, every flattened write is what the row ends up holding. */
  lemma ReportLands(c: map<string, real>, report: Report)
    requires DistinctKeys(FlattenReport(report))
    ensures forall p :: p in FlattenReport(report) ==>
      p.0 in c + PairsToMap(FlattenReport(report)) && (c + PairsToMap(FlattenReport(report)))[p.0] == p.1
  {
    DistinctPairsLand(FlattenReport(report));
  }

  // ---- feature importances ----

  const ImportanceSuffix: string := "_importance"

  /** `[(feature + "_importance", importance) for feature, importance in zip(...)]`. */
  function ImportancePairs(features: seq<string>, importances: seq<real>): (r: Pairs)
    ensures |r| == if |features| <= |importances| then |features| else |importances|
    ensures forall i :: 0 <= i < |r| ==> r[i] == (features[i] + ImportanceSuffix, importances[i])
  {
    if features == [] || importances == [] then []
    else [(features[0] + ImportanceSuffix, importances[0])] + ImportancePairs(features[1..], importances[1..])
  }

  lemma SuffixCancels(f: string, g: string, s: string)
    requires f + s == g + s
    ensures f == g
  {
    assert |f| == |g|;
    assert (f + s)[..|f|] == f;
    assert (g + s)[..|g|] == g;
  }

  /** Distinct feature names give distinct importance keys. */
  lemma ImportanceKeysDistinct(features: seq<string>, importances: seq<real>)
    requires forall i, j :: 0 <= i < j < |features| ==> features[i] != features[j]
    ensures DistinctKeys(ImportancePairs(features, importances))
  {
    var r := ImportancePairs(features, importances);
    forall i, j | 0 <= i < j < |r| ensures r[i].0 != r[j].0 {
      if r[i].0 == r[j].0 {
        SuffixCancels(features[i], features[j], ImportanceSuffix);
      }
    }
  }

  /** A row of the tree table as a dictionary. */
  class TreeRow {
    var cells: map<string, real>

    /** `{"n_leaves": est.get_n_leaves(), "depth": est.get_depth()}`. */
    constructor(nLeaves: nat, depth: nat)
      ensures cells == map["n_leaves" := nLeaves as real, "depth" := depth as real]
    {
      cells := map["n_leaves" := nLeaves as real, "depth" := depth as real];
    }

    /** `new_row.update(dict(pairs))`. */
    method Update(pairs: Pairs)
      modifies this
      ensures cells == old(cells) + PairsToMap(pairs)
    {
      cells := cells + PairsToMap(pairs);
    }

    /** `add_classification_report_metrics_to_row`: the flattened report written into the row. */
    method AddClassificationReportMetrics(report: Report)
      modifies this
      ensures cells == old(cells) + PairsToMap(FlattenReport(report))
    {
      for j := 0 to |report|
        invariant cells == old(cells) + PairsToMap(FlattenReport(report[..j]))
      {
        var metric, value := report[j].0, report[j].1;
        WriteEntry(metric, value);
        assert report[..j + 1][..j] == report[..j];
        PairsToMapAppend(FlattenReport(report[..j]), EntryPairs(metric, value));
        MergeAssociates(old(cells), PairsToMap(FlattenReport(report[..j])), PairsToMap(EntryPairs(metric, value)));
      }
      assert report[..|report|] == report;
    }

    /** One turn of the outer loop: a nested entry label by label, or a scalar under its metric. */
    method WriteEntry(metric: string, value: ReportValue)
      modifies this
      ensures cells == old(cells) + PairsToMap(EntryPairs(metric, value))
    {
      match value {
        case Scalar(x) =>
          PairsToMapSnoc([], (metric, x));
          assert [(metric, x)] == [] + [(metric, x)];
          cells := cells[metric := x];
        case Nested(es) =>
          WriteNested(metric, es);
      }
    }

    /** The inner loop: `new_row[f"{metric}_{label}"] = value` for each label. */
    method WriteNested(metric: string, es: Pairs)
      modifies this
      ensures cells == old(cells) + PairsToMap(NestedPairs(metric, es))
    {
      ghost var ps := NestedPairs(metric, es);
      for t := 0 to |es|
        invariant cells == old(cells) + PairsToMap(ps[..t])
      {
        assert ps[..t + 1] == ps[..t] + [ps[t]];
        PairsToMapSnoc(ps[..t], ps[t]);
        MergeUpdate(old(cells), PairsToMap(ps[..t]), ps[t].0, ps[t].1);
        cells := cells[metric + "_" + es[t].0 := es[t].1];
      }
      assert ps[..|es|] == ps;
    }
  }

  /** What the table needs of one estimator; the rounding of importances is done by the caller. */
  datatype EstimatorSummary = EstimatorSummary(nLeaves: nat, depth: nat, importances: seq<real>, report: Report)

  /** The row `get_tree_df_from_model` builds for estimator `e`. */
  function RowOf(features: seq<string>, e: EstimatorSummary): map<string, real>
  {
    map["n_leaves" := e.nLeaves as real, "depth" := e.depth as real]
      + PairsToMap(ImportancePairs(features, e.importances))
      + PairsToMap(FlattenReport(e.report))
  }

  /** The size columns are never overwritten by an importance, and survive when the report does not write them. */
  lemma RowKeepsSize(features: seq<string>, e: EstimatorSummary)
    requires forall i :: 0 <= i < |FlattenReport(e.report)| ==>
      FlattenReport(e.report)[i].0 != "n_leaves" && FlattenReport(e.report)[i].0 != "depth"
    ensures "n_leaves" in RowOf(features, e) && RowOf(features, e)["n_leaves"] == e.nLeaves as real
    ensures "depth" in RowOf(features, e) && RowOf(features, e)["depth"] == e.depth as real
  {
    var imp := ImportancePairs(features, e.importances);
    forall i | 0 <= i < |imp| ensures imp[i].0 != "n_leaves" && imp[i].0 != "depth" {
      assert |imp[i].0| >= |ImportanceSuffix| > |"n_leaves"| > |"depth"|;
    }
    var rep := FlattenReport(e.report);
    assert "n_leaves" !in PairsToMap(imp) && "depth" !in PairsToMap(imp);
    assert "n_leaves" !in PairsToMap(rep) && "depth" !in PairsToMap(rep);
  }

  /**
   * With distinct feature names, feature `i`'s importance is in the row under
   * `feature + "_importance"` unless the report writes that key.
   */
  lemma RowHoldsImportances(features: seq<string>, e: EstimatorSummary, i: nat)
    requires forall a, b :: 0 <= a < b < |features| ==> features[a] != features[b]
    requires i < |features| && i < |e.importances|
    requires forall j :: 0 <= j < |FlattenReport(e.report)| ==> FlattenReport(e.report)[j].0 != features[i] + ImportanceSuffix
    ensures features[i] + ImportanceSuffix in RowOf(features, e)
    ensures RowOf(features, e)[features[i] + ImportanceSuffix] == e.importances[i]
  {
    var imp := ImportancePairs(features, e.importances);
    ImportanceKeysDistinct(features, e.importances);
    DistinctPairsLand(imp);
    assert imp[i] == (features[i] + ImportanceSuffix, e.importances[i]);
  }

  /** `get_tree_df_from_model`: one row per estimator, in estimator order. */
  method GetTreeRows(features: seq<string>, estimators: seq<EstimatorSummary>) returns (rows: seq<map<string, real>>)
    ensures |rows| == |estimators|
    ensures forall i :: 0 <= i < |rows| ==> rows[i] == RowOf(features, estimators[i])
  {
    rows := [];
    for i := 0 to |estimators|
      invariant |rows| == i
      invariant forall k :: 0 <= k < i ==> rows[k] == RowOf(features, estimators[k])
    {
      var est := estimators[i];
      var row := new TreeRow(est.nLeaves, est.depth);
      row.Update(ImportancePairs(features, est.importances));
      row.AddClassificationReportMetrics(est.report);
      rows := rows + [row.cells];
    }
  }
}
