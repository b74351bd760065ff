/**
 * The bookkeeping around the clustering scores of `RFmodeller`: the share of
 * trees in a cluster, the perplexity clamp before t-SNE, the noise-free
 * submatrix the aggregate silhouette is computed on, and the `-1.0`
 * fallbacks when scikit-learn's silhouette functions raise. DBSCAN, t-SNE
 * and the silhouette computations themselves are parameters.
 */
module Scoring {
  import opened Wrappers
  import opened DistanceMatrix

  /** The label DBSCAN gives a tree that is in no cluster. */
  const Noise: int := -1

  /** Number of trees carrying label `l`. */
  function CountLabel(labels: seq<int>, l: int): (c: nat)
    ensures c <= |labels|
    ensures c == 0 <==> l !in labels
  {
    if labels == [] then 0 else (if labels[0] == l then 1 else 0) + CountLabel(labels[1..], l)
  }

  /**
   * `calculate_percentage_trees_in_clusters`: 100 when no tree is noise, and
   * otherwise `(1 − share of noise trees) · 100`, the share being
   * `value_counts(normalize=True)[-1]`.
   */
  function PercentTreesInClusters(labels: seq<int>): real
  {
    if Noise in labels then (1.0 - NoiseShare(labels)) * 100.0 else 100.0
  }

  /** `value_counts(normalize=True)[-1]`: the fraction of trees that are noise. */
  function NoiseShare(labels: seq<int>): real
    requires Noise in labels
  {
    (CountLabel(labels, Noise) as real) / (|labels| as real)
  }

  /**
   * The percentage lies in [0, 100], is 100 exactly when no tree is noise, and
   * is `100 · (1 − count(−1) / n)` on any non-empty forest, with or without noise.
   */
  lemma PercentTreesInClustersBounds(labels: seq<int>)
    ensures 0.0 <= PercentTreesInClusters(labels) <= 100.0
    ensures PercentTreesInClusters(labels) == 100.0 <==> Noise !in labels
    ensures |labels| > 0 ==>
      PercentTreesInClusters(labels) == 100.0 * (1.0 - (CountLabel(labels, Noise) as real) / (|labels| as real))
  {
    PercentByCount(labels);
    PercentArithmetic(CountLabel(labels, Noise), |labels|);
  }

  /** The percentage as a function of the noise count `c` among `n` trees. */
  function PercentOf(c: nat, n: nat): real
    requires c <= n
  {
    if c == 0 then 100.0 else (1.0 - (c as real) / (n as real)) * 100.0
  }

  lemma PercentByCount(labels: seq<int>)
    ensures PercentTreesInClusters(labels) == PercentOf(CountLabel(labels, Noise), |labels|)
  {
  }

  lemma PercentArithmetic(c: nat, n: nat)
    requires c <= n
    ensures 0.0 <= PercentOf(c, n) <= 100.0
    ensures PercentOf(c, n) == 100.0 <==> c == 0
    ensures n > 0 ==> PercentOf(c, n) == 100.0 * (1.0 - (c as real) / (n as real))
  {
    if c > 0 {
      ShareInUnitInterval(c as real, n as real);
    } else if n > 0 {
      assert (c as real) / (n as real) == 0.0;
    }
  }

  lemma ShareInUnitInterval(c: real, n: real)
    requires 0.0 < c <= n
    ensures 0.0 < c / n <= 1.0
  {
    var f := c / n;
    assert f * n == c;
    ProductSigns(f, n);
  }

  lemma ProductSigns(f: real, n: real)
    requires n > 0.0
    ensures f > 1.0 ==> f * n > n
    ensures f <= 0.0 ==> f * n <= 0.0
  {
    if f > 1.0 { assert (f - 1.0) * n > 0.0; }
  }

  // ---- perplexity clamp ----

  /**
   * The clamp as written before building the t-SNE: when the forest has
   * fewer trees than the perplexity, the perplexity becomes one less than the
   * number of trees.
   */
  function ClampPerplexityAsWritten(nEstimators: int, perplexity: real): (r: real)
    ensures r <= perplexity
    ensures (nEstimators as real) < perplexity ==> r == (nEstimators as real) - 1.0
    ensures perplexity <= nEstimators as real ==> r == perplexity
  {
    if (nEstimators as real) < perplexity then (nEstimators as real) - 1.0 else perplexity
  }

  /** t-SNE refuses a perplexity that is not below the number of samples. */
  predicate TsneAccepts(nSamples: int, perplexity: real)
  {
    perplexity < nSamples as real
  }

  /**
   * As written, a perplexity equal to the forest size passes the clamp
   * unchanged, for every forest size, and t-SNE refuses it; with 5 trees and
   * the slider at 5, say.
   */
  lemma ClampAsWrittenLetsEqualPerplexityThrough(n: int)
    ensures ClampPerplexityAsWritten(n, n as real) == n as real
    ensures !TsneAccepts(n, ClampPerplexityAsWritten(n, n as real))
    ensures ClampPerplexityAsWritten(5, 5.0) == 5.0 && !TsneAccepts(5, 5.0)
  {
  }

  /** The clamp with `<=`: whatever the slider holds, the result is below the number of samples. */
  function ClampPerplexity(nEstimators: int, perplexity: real): (r: real)
    ensures TsneAccepts(nEstimators, r)
    ensures r <= perplexity
    ensures TsneAccepts(nEstimators, perplexity) ==> r == perplexity
    ensures !TsneAccepts(nEstimators, perplexity) ==> r == (nEstimators as real) - 1.0
  {
    if (nEstimators as real) <= perplexity then (nEstimators as real) - 1.0 else perplexity
  }

  /** The two clamps differ only when the perplexity equals the forest size. */
  lemma ClampsAgreeExceptAtForestSize(nEstimators: int, perplexity: real)
    ensures ClampPerplexity(nEstimators, perplexity) != ClampPerplexityAsWritten(nEstimators, perplexity)
        <==> perplexity == nEstimators as real
  {
  }

  // ---- noise-free submatrix ----

  /** Number of trees that are in a cluster (label above `-1`). */
  function CountClustered(labels: seq<int>): (c: nat)
    ensures c <= |labels|
  {
    if labels == [] then 0
    else CountClustered(labels[..|labels| - 1]) + (if labels[|labels| - 1] > Noise then 1 else 0)
  }

  /**
   * `cluster_df.loc[cluster_df["cluster"] > -1]["tree"].to_list()`: the
   * increasing list of the indices of clustered trees.
   */
  function ClusteredTrees(labels: seq<int>): (idx: seq<nat>)
    ensures |idx| == CountClustered(labels)
    ensures forall a :: 0 <= a < |idx| ==> idx[a] < |labels| && labels[idx[a]] > Noise
    ensures forall a, b :: 0 <= a < b < |idx| ==> idx[a] < idx[b]
    ensures forall i :: 0 <= i < |labels| && labels[i] > Noise ==> i in idx
  {
    if labels == [] then []
    else
      var rest := ClusteredTrees(labels[..|labels| - 1]);
      if labels[|labels| - 1] > Noise then rest + [|labels| - 1] else rest
  }

  /** The labels of the clustered trees, in tree order. */
  function ClusteredLabels(labels: seq<int>): (r: seq<int>)
    ensures |r| == CountClustered(labels)
    ensures forall a :: 0 <= a < |r| ==> r[a] > Noise
    ensures forall a :: 0 <= a < |r| ==> r[a] == labels[ClusteredTrees(labels)[a]]
  {
    var idx := ClusteredTrees(labels);
    seq(|idx|, a requires 0 <= a < |idx| => labels[idx[a]])
  }

  /** `np.take(np.take(D, idx, axis=0), idx, axis=1)`. */
  function NoiseFreeSubmatrix<T>(d: seq<seq<T>>, labels: seq<int>): (s: seq<seq<T>>)
    requires IsSquare(d, |labels|)
  {
    var idx := ClusteredTrees(labels);
    seq(|idx|, a requires 0 <= a < |idx| => seq(|idx|, b requires 0 <= b < |idx| => d[idx[a]][idx[b]]))
  }

  /**
   * The submatrix has one row and column per clustered tree, entry `(a, b)`
   * from the `a`-th and `b`-th clustered trees, and is symmetric when `D` is.
   */
  lemma NoiseFreeSubmatrixProperties<T>(d: seq<seq<T>>, labels: seq<int>)
    requires IsSquare(d, |labels|)
    ensures var s, idx := NoiseFreeSubmatrix(d, labels), ClusteredTrees(labels);
      && IsSquare(s, CountClustered(labels))
      && (forall a, b :: 0 <= a < |idx| && 0 <= b < |idx| ==> s[a][b] == d[idx[a]][idx[b]])
      && (Symmetric(d) ==> Symmetric(s))
  {
    var s, idx := NoiseFreeSubmatrix(d, labels), ClusteredTrees(labels);
    if Symmetric(d) {
      forall a, b | 0 <= a < |s| && 0 <= b < |s| ensures s[a][b] == s[b][a] {
        assert d[idx[a]][idx[b]] == d[idx[b]][idx[a]];
      }
    }
  }

  /** Without noise the submatrix is the whole matrix. */
  lemma NoNoiseKeepsWholeMatrix<T>(d: seq<seq<T>>, labels: seq<int>)
    requires IsSquare(d, |labels|)
    requires forall i :: 0 <= i < |labels| ==> labels[i] > Noise
    ensures NoiseFreeSubmatrix(d, labels) == d
  {
    var idx := ClusteredTrees(labels);
    AllClusteredIsIdentity(labels);
    var s := NoiseFreeSubmatrix(d, labels);
    forall a | 0 <= a < |d| ensures s[a] == d[a] {
      assert forall b :: 0 <= b < |d| ==> s[a][b] == d[idx[a]][idx[b]] == d[a][b];
    }
  }

  lemma {:induction false} AllClusteredIsIdentity(labels: seq<int>)
    requires forall i :: 0 <= i < |labels| ==> labels[i] > Noise
    ensures |ClusteredTrees(labels)| == |labels|
    ensures forall a :: 0 <= a < |labels| ==> ClusteredTrees(labels)[a] == a
  {
    if labels != [] {
      AllClusteredIsIdentity(labels[..|labels| - 1]);
    }
  }

  // ---- silhouette fallbacks ----

  /**
   * `calculate_sample_silhouette_scores`: the per-tree silhouettes, or `-1.0`
   * for every row of the matrix when `silhouette_samples` raises (`None`).
   */
  function SampleSilhouetteScores(d: Matrix, labels: seq<int>,
                                  silhouetteSamples: (Matrix, seq<int>) -> Option<seq<real>>): (r: seq<real>)
    ensures silhouetteSamples(d, labels).None? ==> |r| == |d| && forall i :: 0 <= i < |r| ==> r[i] == -1.0
    ensures silhouetteSamples(d, labels).Some? ==> r == silhouetteSamples(d, labels).value
  {
    match silhouetteSamples(d, labels)
    case None => seq(|d|, _ => -1.0)
    case Some(scores) => scores
  }

  /**
   * `calculate_cluster_silhouette_score`: the silhouette of the clustered trees
   * alone, on their submatrix and labels; `-1.0` when `silhouette_score` raises.
   */
  function ClusterSilhouetteScore(d: Matrix, labels: seq<int>,
                                  silhouetteScore: (Matrix, seq<int>) -> Option<real>): (r: real)
    requires IsSquare(d, |labels|)
    ensures var sub, subLabels := NoiseFreeSubmatrix(d, labels), ClusteredLabels(labels);
      && |sub| == |subLabels|
      && (silhouetteScore(sub, subLabels).None? ==> r == -1.0)
      && (silhouetteScore(sub, subLabels).Some? ==> r == silhouetteScore(sub, subLabels).value)
  {
    match silhouetteScore(NoiseFreeSubmatrix(d, labels), ClusteredLabels(labels))
    case None => -1.0
    case Some(score) => score
  }
}
