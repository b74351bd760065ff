# RandFew tree-similarity bookkeeping, in Dafny

RandFew trains a random forest, turns every decision tree into a directed
graph and computes a pairwise graph-edit-distance matrix over the trees. It
clusters the trees with DBSCAN on that matrix, embeds them with t-SNE and
shows one table row per tree in a Streamlit dashboard. This project models
the deterministic part of that pipeline and proves properties of it. The
numerical libraries (networkx, scikit-learn) are parameters.

The model covers these parts of `RFmodeller` (`random_forest_modeller.py`):

* the node-label matcher passed to the graph edit distance (`node_matcher.dfy`).
  It uses `text.dfy` for Python's `str.split` and `decimal.dfy` for decimal
  text.
* the distance-matrix pipeline (`distance_matrix.dfy`):
  * one upper-triangular row per tree, built with a loop over an array;
  * merging the rows by index;
  * `D + Dᵀ − diag(diag D)`;
  * NaN repair with the square of the largest distance;
  * the shape check.
  A distance is `Option<real>`, and `None` is NaN.
* the clustering bookkeeping (`scoring.dfy`): the percentage of trees in a
  cluster, the perplexity clamp, the noise-free submatrix and the silhouette
  fallbacks.
* the slider/session-state resolver (`session_state.dfy`). It is a class over
  the session map, together with the default tables of its two callers.

It also models the table shaping of `DataframeOperator`
(`dataframe_operator.py`, in `dataframe_operator.dfy`):

* the cluster relabelling and the noise silhouette override;
* the grid coordinates;
* the importance columns;
* the flattening of the classification report into the row dictionary.

Three behaviours of the code are worth knowing:

* When every pair times out there is no error: the repair squares the zero
  diagonal, so every NaN becomes 0 and the matrix is all zeros
  (`DistanceMatrix.AllTimeoutsRepairToZero`).
* The comment in `remove_possible_nans` speaks of "twice the maximum
  distance", but the code squares it. Squaring gives a NaN a value below the
  largest distance whenever that maximum lies strictly between 0 and 1
  (`DistanceMatrix.SubstituteDominatesIff`, `DistanceMatrix.SubstituteCanBeSmaller`).
* An empty forest gives a 0×0 matrix, on which `np.nanmax` raises; the model
  returns `Failure(EmptyMatrix)` there. A non-empty matrix whose entries are
  all NaN does not raise: `np.nanmax` gives NaN, and the matrix comes back
  unchanged.

## Model

| member | source | states |
|---|---|---|
| Text.Split | src/dashboardv1/random_forest_modeller.py:333-334 | splitting on one character gives one more piece than there are separators, none containing the separator, and they join back to the input |
| Text.SplitJoin | src/dashboardv1/random_forest_modeller.py:333-334 | splitting a join of separator-free pieces gives the pieces back (the inverse of `Split`) |
| Text.BeforeFirst | src/dashboardv1/random_forest_modeller.py:345-346 | `s.split(" <= ")[0]` is the prefix of `s` before the first occurrence of the marker, or all of `s` when it does not occur |
| Text.FieldAfterFirst | src/dashboardv1/random_forest_modeller.py:337-338 | `s.split(" = ")[1]` is absent (IndexError) exactly when the marker never occurs |
| Text.FieldAfterMarker | src/dashboardv1/random_forest_modeller.py:337-338 | for `p + " = " + t` with no `=` in `p` or `t`, the field after the marker is exactly `t` |
| Decimal.NatToString | src/dashboardv1/dataframe_operator.py:98 | `str(n)` is a non-empty digit string whose last character is the digit `n % 10` |
| Decimal.IntToString | src/dashboardv1/dataframe_operator.py:88 | `str(i)` of a cluster label is non-empty and starts with a digit or a minus sign; `ParseIntToString` states that it reads back |
| Decimal.ParseNat | src/dashboardv1/random_forest_modeller.py:339-340 | an unsigned digit string read as its value; `ParseNatToString` states the round trip with `NatToString` |
| Decimal.ParseNatToString | src/dashboardv1/random_forest_modeller.py:339-340 | parsing the decimal text of a natural number gives it back |
| Decimal.ParseIntToString | src/dashboardv1/dataframe_operator.py:88 | parsing `str(i)` of any integer, negative included, gives back `i` |
| Decimal.FirstCharIsLeadingDigit | src/dashboardv1/dataframe_operator.py:101 | `str(n)[:1]` is the character of the leading decimal digit of `n` |
| NodeMatcher.ArgMax | src/dashboardv1/random_forest_modeller.py:341-343 | `np.argmax`: an index of a maximal value, and the first of them |
| NodeMatcher.Majority | src/dashboardv1/random_forest_modeller.py:341-343 | the majority class exists exactly when the value list was read and is not empty (`np.argmax` raises on an empty list), and is the index of a maximal value |
| NodeMatcher.IntLiteral | src/dashboardv1/random_forest_modeller.py:339-340 | the integer literals `literal_eval` accepts in a value list: digits without a leading zero, unless all are zero; `NatToStringIsLiteral` states that the exporter's numbers are such literals |
| NodeMatcher.ParseLiteralNat | src/dashboardv1/random_forest_modeller.py:339-340 | an item is read exactly when it is such a literal, and then as its decimal value |
| NodeMatcher.NatToStringIsLiteral | src/dashboardv1/random_forest_modeller.py:339-340 | the decimal text of every natural number is a literal the reader accepts |
| NodeMatcher.LeadingZeroRefused | src/dashboardv1/random_forest_modeller.py:339-340 | `007` is refused, and `0` and `00` read as 0, as in Python |
| NodeMatcher.ParseValueList | src/dashboardv1/random_forest_modeller.py:339-340 | `literal_eval` of a leaf's value list; `ParseFormatValueList` states that the exporter's list reads back and `PaddedListRefused` that a zero-padded item raises |
| NodeMatcher.PaddedListRefused | src/dashboardv1/random_forest_modeller.py:339-340 | `[007, 1]` is refused, where `literal_eval` raises a syntax error |
| NodeMatcher.ReadValues | src/dashboardv1/random_forest_modeller.py:337-340 | the value list after ` = ` in the last segment; `FieldAfterMarker` and `ParseFormatValueList` state what it reads from an exporter leaf |
| NodeMatcher.LeafMajorityClass | src/dashboardv1/random_forest_modeller.py:337-343 | the class a leaf predicts; `LeafLabelsMatchOnMajority` states that it is the first maximum of the leaf's value list |
| NodeMatcher.DecodeLabel | src/dashboardv1/random_forest_modeller.py:333-336 | the decoded label records the number of backslash segments of the text |
| NodeMatcher.MatchLabels | src/dashboardv1/random_forest_modeller.py:335-351 | the decision on two decoded labels; `CheckNodeLabelEquality` states all four of its cases in terms of the label texts |
| NodeMatcher.CheckNodeLabelEquality | src/dashboardv1/random_forest_modeller.py:327-351 | different segment counts give false; equal counts other than 3 or 4 raise; 4 segments compare the text before the first ` <= `; 3 segments compare the majority classes and raise when a value list does not parse |
| NodeMatcher.MatcherSymmetric | src/dashboardv1/random_forest_modeller.py:333-351 | the matcher gives the same answer, error included, with its arguments swapped |
| NodeMatcher.ParseFormatValueList | src/dashboardv1/random_forest_modeller.py:339-340 | the value list `[a, b, c]` that graphviz writes reads back as the same list |
| NodeMatcher.LeafLabelsMatchOnMajority | src/dashboardv1/random_forest_modeller.py:336-343 | two well-formed leaf labels match exactly when the first indices of the maxima of their value lists agree, whatever the other segments say |
| NodeMatcher.SplitLabelsIgnoreThreshold | src/dashboardv1/random_forest_modeller.py:344-347 | two split-node labels on the same feature match whatever their thresholds and other segments |
| DistanceMatrix.Plus | src/dashboardv1/random_forest_modeller.py:268-270 | the sum is NaN exactly when an operand is NaN |
| DistanceMatrix.Minus | src/dashboardv1/random_forest_modeller.py:268-270 | the difference is NaN exactly when an operand is NaN |
| DistanceMatrix.UpperRow | src/dashboardv1/random_forest_modeller.py:305-319 | the row a worker returns for tree `k`; `RowDistances` is the loop that builds it and `RowIsUpperRow` ties the two |
| DistanceMatrix.UpperTriangle | src/dashboardv1/random_forest_modeller.py:261-266 | the merged rows form an `n × n` matrix |
| DistanceMatrix.Symmetrize | src/dashboardv1/random_forest_modeller.py:268-270 | `D + Dᵀ − diag(diag D)` keeps the matrix square |
| DistanceMatrix.SymmetrizeEntries | src/dashboardv1/random_forest_modeller.py:268-270 | the result is symmetric; off the diagonal an entry is the sum of the two mirrored entries, and on it the entry itself |
| DistanceMatrix.RowDistances | src/dashboardv1/random_forest_modeller.py:296-319 | row `k` has length `n`, is 0 at every index `≤ k`, and holds `GED(G_j, G_k)` at each `j > k` |
| DistanceMatrix.ComputeRows | src/dashboardv1/random_forest_modeller.py:254-259 | the merged dictionary has the keys `0..n-1`, and key `k` holds the upper-triangular row of tree `k` |
| DistanceMatrix.RowsToMatrix | src/dashboardv1/random_forest_modeller.py:261-266 | the matrix has `n` rows, and row `i` is the dictionary's entry for `i` |
| DistanceMatrix.RowCount | src/dashboardv1/random_forest_modeller.py:265 | a dictionary keyed exactly by `0..n-1` has length `n`, so the fill loop covers every row |
| DistanceMatrix.AssembledEntries | src/dashboardv1/random_forest_modeller.py:261-270 | the assembled matrix is symmetric with a zero diagonal, holds `GED(G_j, G_i)` at both `(i, j)` and `(j, i)` for `i < j`, and so holds a timed-out pair's NaN on both sides |
| DistanceMatrix.AssembleDistanceMatrix | src/dashboardv1/random_forest_modeller.py:254-270 | the loop-built matrix equals the symmetrised upper triangle and has the entries above |
| DistanceMatrix.RowMax | src/dashboardv1/random_forest_modeller.py:453 | `np.nanmax` of a row; `RowMaxSpec` states its properties |
| DistanceMatrix.MatrixMax | src/dashboardv1/random_forest_modeller.py:453 | `np.nanmax` of the matrix; `MatrixMaxSpec` states its properties |
| DistanceMatrix.RowMaxSpec | src/dashboardv1/random_forest_modeller.py:453 | `nanmax` of a row is absent exactly when the row is all NaN; otherwise it is an entry of the row and bounds every finite entry |
| DistanceMatrix.MatrixMaxSpec | src/dashboardv1/random_forest_modeller.py:453 | the same for the whole matrix |
| DistanceMatrix.ReplaceNaNs | src/dashboardv1/random_forest_modeller.py:454 | `nan_to_num` keeps the shape, replaces each NaN with the fill value and leaves every other entry alone |
| DistanceMatrix.ReplaceByNaNChangesNothing | src/dashboardv1/random_forest_modeller.py:453-454 | filling with NaN, the value used when there is no maximum, leaves the matrix as it is |
| DistanceMatrix.RowNaNs | src/dashboardv1/random_forest_modeller.py:448 | the NaN count of a row is at most its length, and 0 exactly when the row has no NaN |
| DistanceMatrix.CountNaNs | src/dashboardv1/random_forest_modeller.py:448 | `np.count_nonzero(np.isnan(D))` is 0 exactly when no entry is NaN |
| DistanceMatrix.SquareMax | src/dashboardv1/random_forest_modeller.py:453 | `pow(np.nanmax(D), 2)`, the fill value; `RemovePossibleNans` states that every former NaN holds it, and `SubstituteDominatesIff` how it compares with the entries |
| DistanceMatrix.RemovePossibleNans | src/dashboardv1/random_forest_modeller.py:441-455 | it fails exactly on a matrix with no entry; the warning is raised exactly when the NaN count exceeds the row count; the shape and every finite entry are kept; every former NaN becomes the square of the maximum; with a maximum no NaN remains |
| DistanceMatrix.SubstituteDominatesIff | src/dashboardv1/random_forest_modeller.py:446-453 | the square of the maximum bounds every entry exactly when the maximum is at least 1 or at most 0 |
| DistanceMatrix.SubstituteCanBeSmaller | src/dashboardv1/random_forest_modeller.py:446-454 | with a largest distance of 0.5 a timed-out pair gets the smaller distance 0.25 |
| DistanceMatrix.AssembledHasMax | src/dashboardv1/random_forest_modeller.py:453 | an assembled matrix of at least one tree has a maximum, and it is not negative |
| DistanceMatrix.RepairSymmetric | src/dashboardv1/random_forest_modeller.py:441-455 | repairing a non-empty symmetric matrix with a zero diagonal leaves no NaN, keeps symmetry and the diagonal, and sets each former NaN to the squared maximum |
| DistanceMatrix.RepairedAssembled | src/dashboardv1/random_forest_modeller.py:441-455 | after repair the forest's matrix is NaN-free, symmetric and zero on the diagonal, and a timed-out pair holds the squared maximum on both sides |
| DistanceMatrix.AllTimeoutsRepairToZero | src/dashboardv1/random_forest_modeller.py:441-455 | when every pair times out, repair succeeds and every entry is 0 |
| DistanceMatrix.AllTimeoutsLeaveOnlyZeros | src/dashboardv1/random_forest_modeller.py:268-270 | when every pair times out, the only finite entries are the zeros of the diagonal |
| DistanceMatrix.OnlyZerosGiveZeroMax | src/dashboardv1/random_forest_modeller.py:453 | a matrix whose finite entries are all zero has maximum 0 |
| DistanceMatrix.ComputeDistanceMatrix | src/dashboardv1/random_forest_modeller.py:254-277 | an empty forest fails; otherwise the result is the scaled repaired matrix with its warning flag, and the shape error is raised exactly when the scaled matrix is not `n × n` |
| DistanceMatrix.DistMatrShapeOk | src/dashboardv1/random_forest_modeller.py:321-325 | `dist_matr_shape_ok` holds exactly for an `n × n` matrix; `ComputeDistanceMatrix` raises the shape error exactly when it fails |
| DistanceMatrix.ShapeCheckPassesForShapePreservingScale | src/dashboardv1/random_forest_modeller.py:272-277 | with a scaler that keeps the shape, the shape check never raises |
| Scoring.CountLabel | src/dashboardv1/random_forest_modeller.py:357-360 | the count of a label is at most the number of trees, and 0 exactly when the label is absent |
| Scoring.PercentTreesInClusters | src/dashboardv1/random_forest_modeller.py:353-363 | the percentage of trees in a cluster; its range, its value 100 exactly without noise and its closed form are stated by `PercentTreesInClustersBounds` |
| Scoring.NoiseShare | src/dashboardv1/random_forest_modeller.py:357-360 | `value_counts(normalize=True)[-1]`, the noise count over the tree count; `PercentTreesInClustersBounds` states the percentage built from it |
| Scoring.PercentTreesInClustersBounds | src/dashboardv1/random_forest_modeller.py:353-363 | the percentage lies in [0, 100], is 100 exactly when no tree is noise, and equals `100 · (1 − count(−1)/n)` on any non-empty forest |
| Scoring.ClampPerplexityAsWritten | src/dashboardv1/random_forest_modeller.py:179-180 | the clamp as written never raises the perplexity; it lowers it to `n_estimators − 1` when it exceeds the forest size and keeps it otherwise, equality included |
| Scoring.TsneAccepts | src/dashboardv1/random_forest_modeller.py:181-192 | scikit-learn's t-SNE requires a perplexity below the number of samples; `ClampPerplexity` states that the corrected clamp always meets it |
| Scoring.ClampAsWrittenLetsEqualPerplexityThrough | src/dashboardv1/random_forest_modeller.py:179-192 | for every forest size `n`, a perplexity of `n` passes the clamp as written unchanged and t-SNE refuses it (5 trees with the slider at 5, for one) |
| Scoring.ClampPerplexity | src/dashboardv1/random_forest_modeller.py:179-180 | the corrected clamp always yields a perplexity below the forest size, keeps an acceptable one and otherwise gives `n_estimators − 1` |
| Scoring.ClampsAgreeExceptAtForestSize | src/dashboardv1/random_forest_modeller.py:179-180 | the two clamps differ exactly when the perplexity equals the forest size |
| Scoring.ClusteredTrees | src/dashboardv1/random_forest_modeller.py:382-384 | the list of non-noise trees is increasing, holds only valid indices of clustered trees, and holds all of them |
| Scoring.ClusteredLabels | src/dashboardv1/random_forest_modeller.py:385 | the filtered labels are one per clustered tree, none is noise, and entry `a` is the label of the `a`-th clustered tree of `ClusteredTrees` |
| Scoring.NoiseFreeSubmatrix | src/dashboardv1/random_forest_modeller.py:386-391 | `np.take` on both axes with the clustered trees; its side, entries and symmetry are stated by `NoiseFreeSubmatrixProperties` |
| Scoring.NoiseFreeSubmatrixProperties | src/dashboardv1/random_forest_modeller.py:382-391 | the submatrix's side is the number of labels above −1, entry `(a, b)` comes from the `a`-th and `b`-th clustered trees, and it is symmetric when `D` is |
| Scoring.NoNoiseKeepsWholeMatrix | src/dashboardv1/random_forest_modeller.py:382-391 | without noise the submatrix is the whole matrix |
| Scoring.AllClusteredIsIdentity | src/dashboardv1/random_forest_modeller.py:382-384 | without noise the list of clustered trees is `0..n-1` |
| Scoring.SampleSilhouetteScores | src/dashboardv1/random_forest_modeller.py:365-379 | when `silhouette_samples` raises, every row of the matrix gets −1.0; otherwise the result is its scores |
| Scoring.ClusterSilhouetteScore | src/dashboardv1/random_forest_modeller.py:381-401 | the silhouette is taken on the noise-free submatrix and labels, which have equal sizes, and is −1.0 when `silhouette_score` raises |
| SessionState.Step | src/dashboardv1/random_forest_modeller.py:133-142 | one turn of the loop over the sliders; what the turns add up to is stated by `ResolvedState`, `ResolvedValues` and `ResolveFails` |
| SessionState.Resolve | src/dashboardv1/random_forest_modeller.py:131-143 | the loop over all sliders from the given session state; its state, values and failure are stated by `ResolvedState`, `ResolvedValues`, `ResolveFails` and `OtherKeysUntouched` |
| SessionState.FailureIsFinal | src/dashboardv1/random_forest_modeller.py:133-142 | after a `KeyError` the remaining sliders change nothing |
| SessionState.ResolvedState | src/dashboardv1/random_forest_modeller.py:123-143 | after a run without a missing default, the state's keys are the old keys plus every slider; a slider read from the defaults holds its default, and every other old key is unchanged |
| SessionState.ResolvedValues | src/dashboardv1/random_forest_modeller.py:131-143 | one value per slider, in slider order, each the value the new state holds for that slider |
| SessionState.ResolveFails | src/dashboardv1/random_forest_modeller.py:134-141 | the resolver raises exactly when some slider that must be read from the defaults has none, and it names the first such slider |
| SessionState.SelectionChangeResets | src/dashboardv1/random_forest_modeller.py:132-135 | after a selection change both the state and the result hold the defaults |
| SessionState.KeepStoredValues | src/dashboardv1/random_forest_modeller.py:136-142 | without a selection change, a stored value is kept and a missing one takes its default |
| SessionState.OtherKeysUntouched | src/dashboardv1/random_forest_modeller.py:123-143 | keys that are not sliders are untouched, even when the resolver raises |
| SessionState.SessionState.constructor | src/dashboardv1/random_forest_modeller.py:123-125 | the session starts with the given map |
| SessionState.SessionState.SliderSessionStateUpdate | src/dashboardv1/random_forest_modeller.py:123-143 | the loop leaves the session map and the result exactly as the resolver specifies, and fails with the name of the missing slider |
| SessionState.TsneDefaults | src/dashboardv1/random_forest_modeller.py:157-169 | the t-SNE default table of either data set holds every t-SNE slider |
| SessionState.DbscanDefaults | src/dashboardv1/random_forest_modeller.py:197-207 | the DBSCAN default table of either data set holds every DBSCAN slider |
| SessionState.CallersNeverMissDefaults | src/dashboardv1/random_forest_modeller.py:157-212 | for either data set, whatever the session holds for the sliders, the resolver called by the two callers never raises `KeyError` |
| SessionState.ResolveTsneSettings | src/dashboardv1/random_forest_modeller.py:170-180 | the t-SNE settings are the resolved slider values, with the perplexity lowered to `n_estimators − 1` only when it exceeds the forest size |
| SessionState.ResolveDbscanSettings | src/dashboardv1/random_forest_modeller.py:207-212 | `eps` and `min_samples` are the resolved slider values |
| SessionState.DigitsSelectionTsneDefaults | src/dashboardv1/random_forest_modeller.py:157-178 | on a fresh selection of the digits data the t-SNE sliders read 40, 47 and 6 |
| SessionState.DigitsWith47TreesKeepsRefusedPerplexity | src/dashboardv1/random_forest_modeller.py:157-180 | with 47 trees a fresh selection of the digits data keeps the perplexity at 47, which t-SNE refuses |
| DataframeOperator.ClusterName | src/dashboardv1/dataframe_operator.py:85-88 | the cluster text is `"Noise"` exactly for label −1 |
| DataframeOperator.ClusterNameReadsBack | src/dashboardv1/dataframe_operator.py:85-88 | every other label is written as its decimal text, which reads back as the label |
| DataframeOperator.ClusterColumn | src/dashboardv1/dataframe_operator.py:85-88 | the column keeps the row count and is `"Noise"` exactly at the noise trees; `ClusterColumnReadsBack` states what the other entries hold |
| DataframeOperator.ClusterColumnReadsBack | src/dashboardv1/dataframe_operator.py:85-88 | every entry at a non-noise tree is the decimal text of that tree's label: it reads back as the label |
| DataframeOperator.NoiseScoresOverridden | src/dashboardv1/dataframe_operator.py:92 | the score column after the assignment; `NoiseOverrideByLabel` states which rows hold −1 and `NoiseOverrideIdempotent` that it is idempotent |
| DataframeOperator.NoiseOverrideByLabel | src/dashboardv1/dataframe_operator.py:85-92 | after relabelling, exactly the noise trees score −1, and every other tree keeps its silhouette |
| DataframeOperator.NoiseOverrideIdempotent | src/dashboardv1/dataframe_operator.py:92 | overriding twice is the same as overriding once |
| DataframeOperator.OverrideNoiseSilhouettes | src/dashboardv1/dataframe_operator.py:92 | the in-place assignment leaves the score column as the override specifies |
| DataframeOperator.GridX | src/dashboardv1/dataframe_operator.py:98 | `grid_x` is a single digit character |
| DataframeOperator.GridY | src/dashboardv1/dataframe_operator.py:100-102 | `grid_y` is at most 9 |
| DataframeOperator.GridXIsLastDigit | src/dashboardv1/dataframe_operator.py:98 | `grid_x` is the last decimal digit of the tree id, as a one-character string |
| DataframeOperator.GridYIsLeadingDigit | src/dashboardv1/dataframe_operator.py:100-102 | `grid_y` is 0 up to 9; from 10 on it is the leading digit, in 1..9, and equal to `id / 10` for 10..99 |
| DataframeOperator.GridCellsDistinctBelow100 | src/dashboardv1/dataframe_operator.py:98-102 | below 100 trees no two trees share a grid cell |
| DataframeOperator.GridCellsCollideFrom100 | src/dashboardv1/dataframe_operator.py:98-102 | trees 10 and 100 share the cell (`"0"`, 1) |
| DataframeOperator.PairsToMap | src/dashboardv1/dataframe_operator.py:44 | `dict(pairs)` has exactly the keys of the pairs |
| DataframeOperator.PairsToMapLast | src/dashboardv1/dataframe_operator.py:44 | a key holds the value of its last pair |
| DataframeOperator.DistinctPairsLand | src/dashboardv1/dataframe_operator.py:44 | with distinct keys every pair lands in the dictionary |
| DataframeOperator.PairsToMapAppend | src/dashboardv1/dataframe_operator.py:44 | `dict(ps + qs)` is `dict(ps)` updated with `dict(qs)` |
| DataframeOperator.UpdatesAreMerge | src/dashboardv1/dataframe_operator.py:70-75 | writing the pairs one by one is the same as `row.update(dict(pairs))` |
| DataframeOperator.UntouchedKey | src/dashboardv1/dataframe_operator.py:70-75 | a key no write touches keeps its entry, or stays absent |
| DataframeOperator.NestedPairs | src/dashboardv1/dataframe_operator.py:72-73 | one `metric_label` write per label of a nested entry |
| DataframeOperator.FlattenReport | src/dashboardv1/dataframe_operator.py:70-75 | the writes of the report loop, in order; `FlattenReportMembership` and `ReportEntryWrites` state which keys and values they are |
| DataframeOperator.FlattenReportMembership | src/dashboardv1/dataframe_operator.py:70-75 | a write of the flattened report comes from exactly one of the report's entries |
| DataframeOperator.ReportEntryWrites | src/dashboardv1/dataframe_operator.py:70-75 | a nested value `v` under metric `m` and label `l` is written to `m + "_" + l`, and a scalar under `m` is written to `m` |
| DataframeOperator.ReportLands | src/dashboardv1/dataframe_operator.py:70-75 | without two writes to one key, the row holds every write of the report |
| DataframeOperator.ImportancePairs | src/dashboardv1/dataframe_operator.py:39-42 | the keys are `feature + "_importance"`, paired by position with the importances and cut to the shorter list |
| DataframeOperator.ImportanceKeysDistinct | src/dashboardv1/dataframe_operator.py:39-44 | distinct feature names give distinct importance keys |
| DataframeOperator.TreeRow.constructor | src/dashboardv1/dataframe_operator.py:37 | the new row holds the leaf count and the depth |
| DataframeOperator.TreeRow.Update | src/dashboardv1/dataframe_operator.py:44 | the row is merged with the dictionary of the pairs |
| DataframeOperator.TreeRow.AddClassificationReportMetrics | src/dashboardv1/dataframe_operator.py:52-75 | the nested loops leave the row merged with the dictionary of the flattened report |
| DataframeOperator.TreeRow.WriteEntry | src/dashboardv1/dataframe_operator.py:71-75 | one report entry is written label by label, or as a scalar under its metric |
| DataframeOperator.TreeRow.WriteNested | src/dashboardv1/dataframe_operator.py:72-73 | the inner loop merges the row with the entry's `metric_label` writes |
| DataframeOperator.RowOf | src/dashboardv1/dataframe_operator.py:37-45 | the row built for one estimator; `RowKeepsSize` and `RowHoldsImportances` state which columns it holds, and `GetTreeRows` that the loop builds it |
| DataframeOperator.RowKeepsSize | src/dashboardv1/dataframe_operator.py:37-45 | the size columns survive the importances, and they survive the report when it does not write them |
| DataframeOperator.RowHoldsImportances | src/dashboardv1/dataframe_operator.py:39-45 | with distinct feature names, every paired feature's importance is in the row unless the report overwrites it |
| DataframeOperator.GetTreeRows | src/dashboardv1/dataframe_operator.py:27-50 | one row per estimator, in estimator order, each built from the size columns, the importances and the report |

## Left out

- Graph edit distance (`nx.graph_edit_distance`, with its 0.5 s timeout) is the parameter `ged`; a timeout is `None`. `ged` never raises: an error the node matcher raises inside it (a `ValueError` or `IndexError` from `check_node_label_equality`, or the `SyntaxError` or `ValueError` of `literal_eval`) would abort `pool.map` and `compute_distance_matrix`, and the model does not pass it on. On leaf and split labels of the shape the graphviz exporter writes, the matcher raises nothing (`NodeMatcher.LeafLabelsMatchOnMajority`, `NodeMatcher.SplitLabelsIgnoreThreshold`).
- The graphviz → pygraphviz → networkx conversion of the trees is not part of this model; trees are an abstract type `G`.
- The random-forest fit, DBSCAN, t-SNE and the silhouette computations are scikit-learn numerics. DBSCAN's labels are an input. The silhouette calls are parameters that return `None` where they raise `ValueError`.
- The `MinMaxScaler` is the parameter `scale`. It scales each column on its own, so no symmetry or bound is claimed for the scaled matrix.
- The multiprocessing pool runs sequentially, and `ChainMap` is modelled as a merge by index. Each row takes its index as a parameter, in place of `directed_graphs.index(...)`.
- The pickle cache, file-existence checks, timers and prints are I/O and are left out. The NaN warning is a boolean in the result.
- `update_load_history`, `data_selection_changed` and `page_changed` depend on a session `counter` no shown code sets. `data_selection_changed()` is the parameter `changed`.
- `dashboard_controller.py`, `data_loader.py` and `st_dashboard.py` hold charting, data loading and an entry script, and are not part of this model.
- `round(importance, 2)` is float rounding. Importances arrive already rounded.
- `classification_report` is a scikit-learn metric. It is an input: a sequence of entries in the dictionary's iteration order.
- Floats are `real`: rounding, infinities and `nan_to_num`'s handling of `±inf` are not modelled.
- SessionState: slider and default values have one type, `real`, so `perplexity = 47` and `min_samples = 2` do not keep their integer type.
- SessionState.CallersNeverMissDefaults: the data choice is one of the two keys of the default tables (`DataChoice` has only `Iris` and `Digits`). `self.data_choice` is read from the session, and any other name there raises `KeyError` at `default_value_dict[self.data_choice]` before the resolver runs; that case is not modelled.
- SessionState.SliderSessionStateUpdate: a missing default raises `KeyError`; the model returns `Failure(name)` instead.
- NodeMatcher.CheckNodeLabelEquality: any error in reading a leaf's value list is `MalformedLeaf` (an IndexError from a missing ` = `, or a `literal_eval` failure). The `ValueError` for other segment counts is `UnexpectedSegmentCount`.
- NodeMatcher.ParseValueList: this reads a bracketed list of non-negative decimal integer literals, which is what graphviz writes. `literal_eval` also accepts other spellings and Python literals (a trailing comma as in `[1, 2,]`, a sign as in `[-1]`, tabs or newlines as whitespace, underscores in numbers, floats, nested lists, tuples); the model refuses them.
- NodeMatcher.Majority: `np.argmax` raises `ValueError` on an empty value list; the model gives `MalformedLeaf` for it, like the other leaf errors.
- DataframeOperator.NoiseScoresOverridden: requires the cluster and score columns to have equal lengths. This stands in for pandas' index alignment in `concat`, which would otherwise pad with NaN.
- DataframeOperator: the rows are dictionaries from column name to `real`; building the DataFrame and its column order are not modelled.
- DistanceMatrix.RowDistances: follows the code as written. The `i == 0` test writes position 0 of the row, not position `k`; that position already holds 0, so the row is the same either way.

## Findings

| source | as written | input that shows it | evidently intended | confidence | as-written member | corrected member |
|---|---|---|---|---|---|---|
| src/dashboardv1/random_forest_modeller.py:179-180 | the perplexity is lowered only when `n_estimators < perplexity` | `n_estimators = 5` with the perplexity slider at 5: the clamp keeps 5, and scikit-learn's t-SNE requires a perplexity below the number of samples | lower it when `n_estimators <= perplexity`, so that the perplexity is always below the number of samples | not executed | Scoring.ClampPerplexityAsWritten, Scoring.ClampAsWrittenLetsEqualPerplexityThrough, SessionState.DigitsWith47TreesKeepsRefusedPerplexity | Scoring.ClampPerplexity |
