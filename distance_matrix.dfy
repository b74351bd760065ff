/**
 * The all-pairs distance matrix of `RFmodeller.compute_distance_matrix`: one
 * row of graph edit distances per tree (`calc_dist_matrix_parallel`), the
 * rows merged by index, the upper triangle mirrored with `D + Dᵀ − diag(diag D)`,
 * and the NaNs that timed-out pairs leave repaired (`remove_possible_nans`).
 * The graph edit distance is a parameter `ged`; `None` stands for NaN.
 */
module DistanceMatrix {
  import opened Wrappers

  /** One matrix entry: a distance, or `None` for NaN. */
  type Cell = Option<real>

  type Matrix = seq<seq<Cell>>

  /** Floating-point addition as far as NaN goes: NaN in, NaN out. */
  function Plus(a: Cell, b: Cell): (r: Cell)
    ensures r.None? <==> a.None? || b.None?
  {
    if a.Some? && b.Some? then Some(a.value + b.value) else None
  }

  /** Floating-point subtraction as far as NaN goes. */
  function Minus(a: Cell, b: Cell): (r: Cell)
    ensures r.None? <==> a.None? || b.None?
  {
    if a.Some? && b.Some? then Some(a.value - b.value) else None
  }

  predicate IsSquare<T>(d: seq<seq<T>>, n: nat)
  {
    |d| == n && forall i :: 0 <= i < n ==> |d[i]| == n
  }

  predicate Symmetric<T(==)>(d: seq<seq<T>>)
    requires IsSquare(d, |d|)
  {
    forall i, j :: 0 <= i < |d| && 0 <= j < |d| ==> d[i][j] == d[j][i]
  }

  /** Row `k` as one worker returns it: zeros up to the diagonal, `GED(G_j, G_k)` after it. */
  function UpperRow<G>(graphs: seq<G>, k: nat, ged: (G, G) -> Cell): (r: seq<Cell>)
    requires k < |graphs|
  {
    seq(|graphs|, j requires 0 <= j < |graphs| => if j <= k then Some(0.0) else ged(graphs[j], graphs[k]))
  }

  /** All rows, merged by index: the upper triangle of the distances. */
  function UpperTriangle<G>(graphs: seq<G>, ged: (G, G) -> Cell): (u: Matrix)
    ensures IsSquare(u, |graphs|)
  {
    seq(|graphs|, k requires 0 <= k < |graphs| => UpperRow(graphs, k, ged))
  }

  /** `D + Dᵀ − diag(diag D)`, entry by entry. */
  function Symmetrize(u: Matrix): (d: Matrix)
    requires IsSquare(u, |u|)
    ensures IsSquare(d, |u|)
  {
    var n := |u|;
    seq(n, i requires 0 <= i < n =>
      seq(n, j requires 0 <= j < n =>
        Minus(Plus(u[i][j], u[j][i]), if i == j then u[i][i] else Some(0.0))))
  }

  /**
   * `calc_dist_matrix_parallel` for the graph at index `k`, which it finds
   * with `directed_graphs.index` and which is given here. The array starts as
   * `np.zeros`; the step `i == 0` writes position 0, not position `k`, which is
   * zero already.
   */
  method RowDistances<G>(graphs: seq<G>, k: nat, ged: (G, G) -> Cell) returns (row: seq<Cell>)
    requires k < |graphs|
    ensures |row| == |graphs|
    ensures forall j :: 0 <= j <= k ==> row[j] == Some(0.0)
    ensures forall j :: k < j < |graphs| ==> row[j] == ged(graphs[j], graphs[k])
  {
    var n := |graphs|;
    var a := new Cell[n](_ => Some(0.0));
    var i := 0;
    while i < n - k
      invariant 0 <= i <= n - k
      invariant forall j :: 0 <= j <= k ==> a[j] == Some(0.0)
      invariant forall j :: k < j < k + i ==> a[j] == ged(graphs[j], graphs[k])
    {
      if i == 0 {
        a[i] := Some(0.0);
      } else {
        a[i + k] := ged(graphs[i + k], graphs[k]);
      }
      i := i + 1;
    }
    row := a[..];
  }

  /** The indices below `k`, the keys of the merged row dictionary. */
  function Range(k: nat): (r: set<nat>)
    ensures forall j: nat :: j in r <==> j < k
    ensures |r| == k
  {
    if k == 0 then {} else assert k - 1 !in Range(k - 1); Range(k - 1) + {k - 1}
  }

  lemma SymmetrizeEntries(u: Matrix)
    requires IsSquare(u, |u|)
    ensures var d := Symmetrize(u);
      && Symmetric(d)
      && (forall i :: 0 <= i < |u| && u[i][i] == Some(0.0) ==> d[i][i] == Some(0.0))
      && (forall i, j :: 0 <= i < |u| && 0 <= j < |u| && i != j ==> d[i][j] == Plus(u[i][j], u[j][i]))
  {
  }

  /** The mirrored upper triangle: symmetric, zero on the diagonal, `GED(G_j, G_i)` at both `(i, j)` and `(j, i)`. */
  lemma {:induction false} AssembledEntries<G>(graphs: seq<G>, ged: (G, G) -> Cell)
    ensures var d := Symmetrize(UpperTriangle(graphs, ged));
      && Symmetric(d)
      && (forall i :: 0 <= i < |graphs| ==> d[i][i] == Some(0.0))
      && (forall i, j :: 0 <= i < j < |graphs| ==>
            d[i][j] == ged(graphs[j], graphs[i]) && d[j][i] == ged(graphs[j], graphs[i]))
  {
    var u := UpperTriangle(graphs, ged);
    SymmetrizeEntries(u);
    forall i, j | 0 <= i < j < |graphs| ensures Plus(u[i][j], u[j][i]) == ged(graphs[j], graphs[i]) {
      assert u[j][i] == Some(0.0);
      assert u[i][j] == ged(graphs[j], graphs[i]);
    }
  }

  /**
   * `pool.map(calc_dist_matrix_parallel, directed_graphs)` followed by the
   * `ChainMap` merge, run one row after the other: a dictionary from each
   * tree index to its row.
   */
  method ComputeRows<G>(graphs: seq<G>, ged: (G, G) -> Cell) returns (rows: map<nat, seq<Cell>>)
    ensures forall j: nat :: j in rows <==> j < |graphs|
    ensures forall k :: 0 <= k < |graphs| ==> rows[k] == UpperRow(graphs, k, ged)
  {
    rows := map[];
    for k := 0 to |graphs|
      invariant forall j: nat :: j in rows <==> j < k
      invariant forall j :: 0 <= j < k ==> rows[j] == UpperRow(graphs, j, ged)
    {
      var row := RowDistances(graphs, k, ged);
      RowIsUpperRow(graphs, k, ged, row);
      rows := rows[k := row];
    }
  }

  /** A row with the entries `calc_dist_matrix_parallel` promises is the `k`-th row of the upper triangle. */
  lemma RowIsUpperRow<G>(graphs: seq<G>, k: nat, ged: (G, G) -> Cell, row: seq<Cell>)
    requires k < |graphs| && |row| == |graphs|
    requires forall j :: 0 <= j <= k ==> row[j] == Some(0.0)
    requires forall j :: k < j < |graphs| ==> row[j] == ged(graphs[j], graphs[k])
    ensures row == UpperRow(graphs, k, ged)
  {
  }

  /**
   * `np.zeros((n, n))`, then `distance_matrix[i] = distance_matrix_dict.get(i)`
   * for each `i < len(distance_matrix_dict)`, which is `n` here.
   */
  method RowsToMatrix(rows: map<nat, seq<Cell>>, n: nat) returns (m: Matrix)
    requires forall j: nat :: j in rows <==> j < n
    ensures |m| == n && forall i :: 0 <= i < n ==> m[i] == rows[i]
  {
    RowCount(rows, n);
    var zeroRow: seq<Cell> := seq(n, _ => Some(0.0));
    var a := new seq<Cell>[n];
    forall i | 0 <= i < n {
      a[i] := zeroRow;
    }
    for i := 0 to n
      invariant forall j :: 0 <= j < i ==> a[j] == rows[j]
    {
      a[i] := rows[i];
    }
    m := a[..];
  }

  /** A dictionary keyed by exactly the indices below `n` has `n` entries. */
  lemma RowCount(rows: map<nat, seq<Cell>>, n: nat)
    requires forall j: nat :: j in rows <==> j < n
    ensures |rows| == n
  {
    assert rows.Keys == Range(n);
    assert |rows.Keys| == |Range(n)|;
  }

  /**
   * The assembly part of `compute_distance_matrix`: the rows computed and
   * merged by index, written into an `n × n` matrix, and mirrored.
   */
  method AssembleDistanceMatrix<G>(graphs: seq<G>, ged: (G, G) -> Cell) returns (d: Matrix)
    ensures d == Symmetrize(UpperTriangle(graphs, ged))
    ensures IsSquare(d, |graphs|) && Symmetric(d)
    ensures forall i :: 0 <= i < |graphs| ==> d[i][i] == Some(0.0)
    ensures forall i, j :: 0 <= i < j < |graphs| ==>
      d[i][j] == ged(graphs[j], graphs[i]) && d[j][i] == ged(graphs[j], graphs[i])
  {
    var rows := ComputeRows(graphs, ged);
    var m := RowsToMatrix(rows, |graphs|);
    var u := UpperTriangle(graphs, ged);
    assert m == u;
    d := Symmetrize(m);
    AssembledEntries(graphs, ged);
  }

  // ---- NaN repair ----

  function Max(a: real, b: real): real { if a < b then b else a }

  /** The largest non-NaN entry of a row, as `np.nanmax` finds it; `None` if there is none. */
  function RowMax(row: seq<Cell>): Option<real>
  {
    if row == [] then None
    else
      match (row[0], RowMax(row[1..]))
      case (None, rest) => rest
      case (Some(x), None) => Some(x)
      case (Some(x), Some(y)) => Some(Max(x, y))
  }

  /** `RowMax` is `None` exactly on an all-NaN row, and otherwise an entry of the row bounding all the others. */
  lemma {:induction false} RowMaxSpec(row: seq<Cell>)
    ensures RowMax(row).None? <==> forall j :: 0 <= j < |row| ==> row[j].None?
    ensures RowMax(row).Some? ==> exists j :: 0 <= j < |row| && row[j] == RowMax(row)
    ensures RowMax(row).Some? ==> forall j :: 0 <= j < |row| && row[j].Some? ==> row[j].value <= RowMax(row).value
  {
    if row != [] {
      var tail := row[1..];
      RowMaxSpec(tail);
      assert forall j :: 1 <= j < |row| ==> row[j] == tail[j - 1];
      var rest := RowMax(tail);
      if rest.Some? {
        var j :| 0 <= j < |tail| && tail[j] == rest;
        assert row[j + 1] == rest;
        if row[0].Some? && row[0].value < rest.value {
          assert RowMax(row) == rest;
        }
      }
    }
  }

  /** The largest non-NaN entry of the whole matrix; `None` if every entry is NaN. */
  function MatrixMax(d: Matrix): Option<real>
  {
    if d == [] then None
    else
      match (RowMax(d[0]), MatrixMax(d[1..]))
      case (None, rest) => rest
      case (Some(x), None) => Some(x)
      case (Some(x), Some(y)) => Some(Max(x, y))
  }

  /** `MatrixMax` is `None` exactly on an all-NaN matrix, and otherwise an entry bounding all the others. */
  lemma {:induction false} MatrixMaxSpec(d: Matrix)
    ensures MatrixMax(d).None? <==> forall i, j :: 0 <= i < |d| && 0 <= j < |d[i]| ==> d[i][j].None?
    ensures MatrixMax(d).Some? ==> exists i, j :: 0 <= i < |d| && 0 <= j < |d[i]| && d[i][j] == MatrixMax(d)
    ensures MatrixMax(d).Some? ==>
      forall i, j :: 0 <= i < |d| && 0 <= j < |d[i]| && d[i][j].Some? ==> d[i][j].value <= MatrixMax(d).value
  {
    if d != [] {
      var tail := d[1..];
      MatrixMaxSpec(tail);
      RowMaxSpec(d[0]);
      assert forall i :: 1 <= i < |d| ==> d[i] == tail[i - 1];
      var first, rest := RowMax(d[0]), MatrixMax(tail);
      if rest.Some? {
        var i, j :| 0 <= i < |tail| && 0 <= j < |tail[i]| && tail[i][j] == rest;
        assert d[i + 1][j] == rest;
      }
      if first.Some? {
        var j :| 0 <= j < |d[0]| && d[0][j] == first;
        assert d[0][j] == first;
      }
    }
  }

  function RowNaNs(row: seq<Cell>): (c: nat)
    ensures c <= |row|
    ensures c == 0 <==> forall j :: 0 <= j < |row| ==> row[j].Some?
  {
    if row == [] then 0 else (if row[0].None? then 1 else 0) + RowNaNs(row[1..])
  }

  /** `np.count_nonzero(np.isnan(D))`. */
  function CountNaNs(d: Matrix): (c: nat)
    ensures c == 0 <==> forall i, j :: 0 <= i < |d| && 0 <= j < |d[i]| ==> d[i][j].Some?
  {
    if d == [] then 0 else RowNaNs(d[0]) + CountNaNs(d[1..])
  }

  /** True iff the matrix has no entry at all, where `np.nanmax` raises ValueError. */
  predicate NoEntries(d: Matrix)
  {
    forall i :: 0 <= i < |d| ==> d[i] == []
  }

  /** `np.nan_to_num(D, nan=fill)`: every NaN replaced by `fill`. */
  function ReplaceNaNs(d: Matrix, fill: Cell): (r: Matrix)
    ensures |r| == |d| && forall i :: 0 <= i < |d| ==> |r[i]| == |d[i]|
    ensures forall i, j :: 0 <= i < |d| && 0 <= j < |d[i]| ==>
      r[i][j] == if d[i][j].None? then fill else d[i][j]
  {
    seq(|d|, i requires 0 <= i < |d| =>
      seq(|d[i]|, j requires 0 <= j < |d[i]| => if d[i][j].None? then fill else d[i][j]))
  }

  lemma ReplaceByNaNChangesNothing(d: Matrix)
    ensures ReplaceNaNs(d, None) == d
  {
    var r := ReplaceNaNs(d, None);
    forall i | 0 <= i < |d| ensures r[i] == d[i] {
      assert forall j :: 0 <= j < |d[i]| ==> r[i][j] == d[i][j];
    }
  }

  /** What `remove_possible_nans` hands back: the matrix, and whether it warned. */
  datatype Repaired = Repaired(matrix: Matrix, warned: bool)

  datatype DistanceError = EmptyMatrix | ShapeMismatch

  /** `pow(np.nanmax(D), 2)`: the square of the largest distance, or NaN when there is none. */
  function SquareMax(d: Matrix): Cell
  {
    match MatrixMax(d)
    case None => None
    case Some(x) => Some(x * x)
  }

  /**
   * `remove_possible_nans`: warns when there are more NaNs than rows, and
   * replaces every NaN by the square of the largest non-NaN entry. On a matrix
   * whose every entry is NaN, `np.nanmax` gives NaN, so nothing changes; on a
   * matrix with no entries it raises.
   */
  function RemovePossibleNans(d: Matrix): (r: Result<Repaired, DistanceError>)
    ensures r.Failure? <==> NoEntries(d)
    ensures r.Failure? ==> r.error == EmptyMatrix
    ensures r.Success? ==> r.value.warned == (CountNaNs(d) > |d|)
    ensures r.Success? ==> |r.value.matrix| == |d| && forall i :: 0 <= i < |d| ==> |r.value.matrix[i]| == |d[i]|
    ensures r.Success? ==> forall i, j :: 0 <= i < |d| && 0 <= j < |d[i]| && d[i][j].Some? ==>
      r.value.matrix[i][j] == d[i][j]
    ensures r.Success? && SquareMax(d).Some? ==> forall i, j :: 0 <= i < |d| && 0 <= j < |d[i]| ==>
      r.value.matrix[i][j].Some?
    ensures r.Success? ==> forall i, j :: 0 <= i < |d| && 0 <= j < |d[i]| && d[i][j].None? ==>
      r.value.matrix[i][j] == SquareMax(d)
    ensures r.Success? && SquareMax(d).None? ==> r.value.matrix == d
  {
    if NoEntries(d) then Failure(EmptyMatrix)
    else
      var warned := CountNaNs(d) > |d|;
      var fill := SquareMax(d);
      var m := ReplaceNaNs(d, fill);
      ReplaceByNaNChangesNothing(d);
      Success(Repaired(m, warned))
  }

  /** Every non-NaN entry of `d` is at most `bound`. */
  predicate AllAtMost(d: Matrix, bound: real)
  {
    forall i, j :: 0 <= i < |d| && 0 <= j < |d[i]| && d[i][j].Some? ==> d[i][j].value <= bound
  }

  /** The substitute is at least every finite distance exactly when the largest one is at least 1 or at most 0. */
  lemma SubstituteDominatesIff(d: Matrix, mx: real)
    requires MatrixMax(d) == Some(mx)
    ensures AllAtMost(d, mx * mx) <==> (mx >= 1.0 || mx <= 0.0)
  {
    SquareVersusSelf(mx);
    MaxBounds(d, mx, mx * mx);
  }

  /** `mx` is the largest entry, so every entry is at most `bound` iff `mx` is. */
  lemma MaxBounds(d: Matrix, mx: real, bound: real)
    requires MatrixMax(d) == Some(mx)
    ensures AllAtMost(d, bound) <==> mx <= bound
  {
    MatrixMaxSpec(d);
    var i, j :| 0 <= i < |d| && 0 <= j < |d[i]| && d[i][j] == Some(mx);
    if AllAtMost(d, bound) {
      assert d[i][j].value <= bound;
    }
  }

  lemma SquareVersusSelf(x: real)
    ensures x * x >= x <==> (x >= 1.0 || x <= 0.0)
  {
    if x >= 1.0 {
      SquareAtLeast(x);
    } else if x < 0.0 {
      ProductPositive(-x, -x);
    } else if x > 0.0 {
      SquareBelow(x);
    }
  }

  lemma ProductPositive(x: real, y: real)
    requires x > 0.0 && y > 0.0
    ensures x * y > 0.0
  {
  }

  lemma SquareBelow(x: real)
    requires 0.0 < x < 1.0
    ensures x * x < x
  {
    ProductPositive(x, 1.0 - x);
    assert x * (1.0 - x) == x - x * x;
  }

  lemma SquareAtLeast(x: real)
    requires x >= 1.0
    ensures x * x >= x
  {
    assert x * x - x == x * (x - 1.0);
    if x > 1.0 { ProductPositive(x, x - 1.0); }
  }

  /** A substitute below the largest distance: with one timed-out pair and a largest distance of 0.5, the NaNs become 0.25. */
  lemma SubstituteCanBeSmaller()
    ensures var d := [[Some(0.0), Some(0.5), None], [Some(0.5), Some(0.0), None], [None, None, Some(0.0)]];
      RemovePossibleNans(d).Success? && RemovePossibleNans(d).value.matrix[0][2] == Some(0.25)
  {
    var d := [[Some(0.0), Some(0.5), None], [Some(0.5), Some(0.0), None], [None, None, Some(0.0)]];
    assert d[0][1] == Some(0.5);
    assert MatrixMax(d) == Some(0.5);
  }

  // ---- the non-I/O part of compute_distance_matrix ----

  /** Assembly puts zeros on the diagonal, so with at least one tree a largest distance exists and is not negative. */
  lemma AssembledHasMax<G>(graphs: seq<G>, ged: (G, G) -> Cell)
    requires |graphs| > 0
    ensures var d := Symmetrize(UpperTriangle(graphs, ged));
      MatrixMax(d).Some? && MatrixMax(d).value >= 0.0
  {
    AssembledEntries(graphs, ged);
    var d := Symmetrize(UpperTriangle(graphs, ged));
    assert d[0][0] == Some(0.0);
    MatrixMaxSpec(d);
  }

  /**
   * Repairing a non-empty symmetric matrix with a zero diagonal leaves no NaN,
   * keeps it symmetric with a zero diagonal, and puts the square of the largest
   * distance where a NaN was.
   */
  lemma RepairSymmetric(d: Matrix)
    requires |d| > 0 && IsSquare(d, |d|) && Symmetric(d)
    requires forall i :: 0 <= i < |d| ==> d[i][i] == Some(0.0)
    ensures var r := RemovePossibleNans(d);
      && r.Success? && SquareMax(d).Some?
      && IsSquare(r.value.matrix, |d|)
      && (forall i, j :: 0 <= i < |d| && 0 <= j < |d| ==> r.value.matrix[i][j].Some?)
      && Symmetric(r.value.matrix)
      && (forall i :: 0 <= i < |d| ==> r.value.matrix[i][i] == Some(0.0))
      && (forall i, j :: 0 <= i < |d| && 0 <= j < |d| ==>
            r.value.matrix[i][j] == (if d[i][j].None? then SquareMax(d) else d[i][j]))
  {
    assert d[0][0] == Some(0.0);
    assert !NoEntries(d) by { assert d[0] != []; }
    MatrixMaxSpec(d);
    var fill := SquareMax(d);
    assert fill.Some?;
    var m := ReplaceNaNs(d, fill);
    assert RemovePossibleNans(d) == Success(Repaired(m, CountNaNs(d) > |d|));
    forall i, j | 0 <= i < |d| && 0 <= j < |d| ensures m[i][j] == m[j][i] {
      assert d[i][j] == d[j][i];
    }
  }

  /**
   * The repaired matrix of a non-empty forest: no NaN left, symmetric, zero on
   * the diagonal; a pair that timed out holds the square of the largest
   * distance at both `(i, j)` and `(j, i)`, every other pair its distance.
   */
  lemma RepairedAssembled<G>(graphs: seq<G>, ged: (G, G) -> Cell)
    requires |graphs| > 0
    ensures var d := Symmetrize(UpperTriangle(graphs, ged));
      var r := RemovePossibleNans(d);
      && r.Success? && SquareMax(d).Some?
      && IsSquare(r.value.matrix, |graphs|)
      && (forall i, j :: 0 <= i < |graphs| && 0 <= j < |graphs| ==> r.value.matrix[i][j].Some?)
      && Symmetric(r.value.matrix)
      && (forall i :: 0 <= i < |graphs| ==> r.value.matrix[i][i] == Some(0.0))
      && (forall i, j :: 0 <= i < j < |graphs| ==>
            var expected := if ged(graphs[j], graphs[i]).None? then SquareMax(d) else ged(graphs[j], graphs[i]);
            r.value.matrix[i][j] == expected && r.value.matrix[j][i] == expected)
  {
    var d := Symmetrize(UpperTriangle(graphs, ged));
    AssembledEntries(graphs, ged);
    RepairSymmetric(d);
  }

  /** Every pair timing out does not fail: all NaNs become the square of the zero diagonal, and the matrix is all zeros. */
  lemma AllTimeoutsRepairToZero<G>(graphs: seq<G>, ged: (G, G) -> Cell)
    requires |graphs| > 0
    requires forall i, j :: 0 <= i < j < |graphs| ==> ged(graphs[j], graphs[i]).None?
    ensures var r := RemovePossibleNans(Symmetrize(UpperTriangle(graphs, ged)));
      r.Success? && forall i, j :: 0 <= i < |graphs| && 0 <= j < |graphs| ==> r.value.matrix[i][j] == Some(0.0)
  {
    var d: Matrix := Symmetrize(UpperTriangle(graphs, ged));
    AllTimeoutsLeaveOnlyZeros(graphs, ged);
    AssembledHasMax(graphs, ged);
    OnlyZerosGiveZeroMax(d);
    assert SquareMax(d) == Some(0.0);
    assert !NoEntries(d) by { assert d[0] != []; }
  }

  /** When every pair times out, the only finite entries of the assembled matrix are its zero diagonal. */
  lemma AllTimeoutsLeaveOnlyZeros<G>(graphs: seq<G>, ged: (G, G) -> Cell)
    requires forall i, j :: 0 <= i < j < |graphs| ==> ged(graphs[j], graphs[i]).None?
    ensures var d := Symmetrize(UpperTriangle(graphs, ged));
      forall i, j :: 0 <= i < |d| && 0 <= j < |d[i]| && d[i][j].Some? ==> d[i][j] == Some(0.0)
  {
    AssembledEntries(graphs, ged);
    var d: Matrix := Symmetrize(UpperTriangle(graphs, ged));
    forall i: int, j: int | 0 <= i < |d| && 0 <= j < |d[i]| ensures d[i][j].None? || d[i][j] == Some(0.0) {
      if i < j {
        assert d[i][j] == ged(graphs[j], graphs[i]);
      } else if j < i {
        assert d[i][j] == ged(graphs[i], graphs[j]);
      }
    }
  }

  /** A matrix whose only non-NaN entries are zeros has largest entry zero. */
  lemma OnlyZerosGiveZeroMax(d: Matrix)
    requires MatrixMax(d).Some?
    requires forall i, j :: 0 <= i < |d| && 0 <= j < |d[i]| && d[i][j].Some? ==> d[i][j] == Some(0.0)
    ensures MatrixMax(d) == Some(0.0)
  {
    MatrixMaxSpec(d);
  }

  /** `dist_matr_shape_ok`: the matrix is `n × n`. */
  predicate DistMatrShapeOk(d: Matrix, n: nat)
  {
    IsSquare(d, n)
  }

  /** The finished matrix, and whether the NaN count raised the warning. */
  datatype DistanceMatrixResult = DistanceMatrixResult(matrix: Matrix, nanWarning: bool)

  /**
   * `compute_distance_matrix` without the cache and the timers: assemble,
   * repair the NaNs, scale (the min-max scaler is the parameter `scale`), and
   * raise when the result is not `n × n`.
   */
  method ComputeDistanceMatrix<G>(graphs: seq<G>, ged: (G, G) -> Cell, scale: Matrix -> Matrix)
    returns (r: Result<DistanceMatrixResult, DistanceError>)
    ensures |graphs| == 0 ==> r == Failure(EmptyMatrix)
    ensures |graphs| > 0 ==>
      RemovePossibleNans(Symmetrize(UpperTriangle(graphs, ged))).Success? &&
      var repaired := RemovePossibleNans(Symmetrize(UpperTriangle(graphs, ged))).value;
      && (r.Success? <==> IsSquare(scale(repaired.matrix), |graphs|))
      && (r.Success? ==> r.value == DistanceMatrixResult(scale(repaired.matrix), repaired.warned))
      && (r.Failure? ==> r.error == ShapeMismatch)
  {
    var assembled := AssembleDistanceMatrix(graphs, ged);
    if |graphs| > 0 {
      RepairedAssembled(graphs, ged);
    } else {
      assert NoEntries(assembled);
    }
    var repaired :- RemovePossibleNans(assembled);
    var scaled := scale(repaired.matrix);
    if !DistMatrShapeOk(scaled, |graphs|) {
      return Failure(ShapeMismatch);
    }
    r := Success(DistanceMatrixResult(scaled, repaired.warned));
  }

  /** With a scaler that keeps the shape, which the min-max scaler does, the shape check never raises. */
  lemma ShapeCheckPassesForShapePreservingScale<G>(graphs: seq<G>, ged: (G, G) -> Cell, scale: Matrix -> Matrix)
    requires |graphs| > 0
    requires forall m :: IsSquare(m, |graphs|) ==> IsSquare(scale(m), |graphs|)
    ensures var r := RemovePossibleNans(Symmetrize(UpperTriangle(graphs, ged)));
      r.Success? && IsSquare(scale(r.value.matrix), |graphs|)
  {
    RepairedAssembled(graphs, ged);
  }
}
