/** Dense row-major matrices as sequences of rows, and the numpy operations
    the trial matrices use on them: `np.ix_` gathers and scatters, constant
    fills and elementwise combinations. */
module Matrix {
  import opened Seqs

  /** `M` has exactly `rows` rows of `cols` cells each. */
  predicate Shaped<T>(M: seq<seq<T>>, rows: nat, cols: nat) {
    |M| == rows && forall i :: 0 <= i < rows ==> |M[i]| == cols
  }

  /** `np.zeros` / `np.ones`: every cell holds `v`. */
  function Constant<T>(rows: nat, cols: nat, v: T): (M: seq<seq<T>>)
    ensures Shaped(M, rows, cols)
    ensures forall i, j :: 0 <= i < rows && 0 <= j < cols ==> M[i][j] == v
  {
    seq(rows, i => seq(cols, j => v))
  }

  /** `M[np.ix_(ri, ci)]`: the submatrix on rows `ri` and columns `ci`. */
  function Gather<T>(M: seq<seq<T>>, rows: nat, cols: nat, ri: seq<nat>, ci: seq<nat>): (G: seq<seq<T>>)
    requires Shaped(M, rows, cols) && InBounds(ri, rows) && InBounds(ci, cols)
    ensures Shaped(G, |ri|, |ci|)
    ensures forall a, b :: 0 <= a < |ri| && 0 <= b < |ci| ==> G[a][b] == M[ri[a]][ci[b]]
  {
    seq(|ri|, a requires 0 <= a < |ri| => seq(|ci|, b requires 0 <= b < |ci| => M[ri[a]][ci[b]]))
  }

  /** `Z[np.ix_(ri, ci)] = B`: cell `(ri[a], ci[b])` receives `B[a][b]`.
      Every call site passes duplicate-free index arrays, so which of two
      equal indices would win is immaterial. */
  function Scatter<T>(Z: seq<seq<T>>, rows: nat, cols: nat, ri: seq<nat>, ci: seq<nat>, B: seq<seq<T>>): (R: seq<seq<T>>)
    requires Shaped(Z, rows, cols) && InBounds(ri, rows) && InBounds(ci, cols)
    requires Shaped(B, |ri|, |ci|)
    ensures Shaped(R, rows, cols)
    ensures forall r, c :: 0 <= r < rows && 0 <= c < cols ==>
      R[r][c] == (if r in ri && c in ci then B[IndexOf(ri, r)][IndexOf(ci, c)] else Z[r][c])
  {
    seq(rows, r requires 0 <= r < rows =>
      seq(cols, c requires 0 <= c < cols =>
        if r in ri && c in ci then B[IndexOf(ri, r)][IndexOf(ci, c)] else Z[r][c]))
  }

  /** `np.logical_or`. */
  function Or(A: seq<seq<bool>>, B: seq<seq<bool>>, rows: nat, cols: nat): (R: seq<seq<bool>>)
    requires Shaped(A, rows, cols) && Shaped(B, rows, cols)
    ensures Shaped(R, rows, cols)
    ensures forall i, j :: 0 <= i < rows && 0 <= j < cols ==> R[i][j] == (A[i][j] || B[i][j])
  {
    seq(rows, i requires 0 <= i < rows => seq(cols, j requires 0 <= j < cols => A[i][j] || B[i][j]))
  }

  /** `np.logical_and`. */
  function And(A: seq<seq<bool>>, B: seq<seq<bool>>, rows: nat, cols: nat): (R: seq<seq<bool>>)
    requires Shaped(A, rows, cols) && Shaped(B, rows, cols)
    ensures Shaped(R, rows, cols)
    ensures forall i, j :: 0 <= i < rows && 0 <= j < cols ==> R[i][j] == (A[i][j] && B[i][j])
  {
    seq(rows, i requires 0 <= i < rows => seq(cols, j requires 0 <= j < cols => A[i][j] && B[i][j]))
  }

  /** `np.logical_and(A, np.logical_not(B))`. */
  function AndNot(A: seq<seq<bool>>, B: seq<seq<bool>>, rows: nat, cols: nat): (R: seq<seq<bool>>)
    requires Shaped(A, rows, cols) && Shaped(B, rows, cols)
    ensures Shaped(R, rows, cols)
    ensures forall i, j :: 0 <= i < rows && 0 <= j < cols ==> R[i][j] == (A[i][j] && !B[i][j])
  {
    seq(rows, i requires 0 <= i < rows => seq(cols, j requires 0 <= j < cols => A[i][j] && !B[i][j]))
  }

  /** Elementwise sum of two score matrices. */
  function Add(A: seq<seq<int>>, B: seq<seq<int>>, rows: nat, cols: nat): (R: seq<seq<int>>)
    requires Shaped(A, rows, cols) && Shaped(B, rows, cols)
    ensures Shaped(R, rows, cols)
    ensures forall i, j :: 0 <= i < rows && 0 <= j < cols ==> R[i][j] == A[i][j] + B[i][j]
  {
    seq(rows, i requires 0 <= i < rows => seq(cols, j requires 0 <= j < cols => A[i][j] + B[i][j]))
  }

  /** `M[mask] = v`. */
  function Fill<T>(M: seq<seq<T>>, mask: seq<seq<bool>>, rows: nat, cols: nat, v: T): (R: seq<seq<T>>)
    requires Shaped(M, rows, cols) && Shaped(mask, rows, cols)
    ensures Shaped(R, rows, cols)
    ensures forall i, j :: 0 <= i < rows && 0 <= j < cols ==> R[i][j] == (if mask[i][j] then v else M[i][j])
  {
    seq(rows, i requires 0 <= i < rows => seq(cols, j requires 0 <= j < cols => if mask[i][j] then v else M[i][j]))
  }

  /** `np.any`. */
  predicate AnyTrue(M: seq<seq<bool>>, rows: nat, cols: nat)
    requires Shaped(M, rows, cols)
  {
    exists i, j :: 0 <= i < rows && 0 <= j < cols && M[i][j]
  }

  /** A true cell of a conjunction is true in both operands. */
  lemma AndWitness(A: seq<seq<bool>>, B: seq<seq<bool>>, rows: nat, cols: nat) returns (i: nat, j: nat)
    requires Shaped(A, rows, cols) && Shaped(B, rows, cols) && AnyTrue(And(A, B, rows, cols), rows, cols)
    ensures i < rows && j < cols && A[i][j] && B[i][j]
  {
    var C := And(A, B, rows, cols);
    i, j :| 0 <= i < rows && 0 <= j < cols && C[i][j];
  }

  /** Two matrices of one shape that agree on every cell are equal. */
  lemma Extensional<T>(A: seq<seq<T>>, B: seq<seq<T>>, rows: nat, cols: nat)
    requires Shaped(A, rows, cols) && Shaped(B, rows, cols)
    requires forall i, j :: 0 <= i < rows && 0 <= j < cols ==> A[i][j] == B[i][j]
    ensures A == B
  {
    forall i | 0 <= i < rows ensures A[i] == B[i] {
    }
  }

  /** Positions `(row, column)` of the true cells of `M`, column by column
      and top to bottom within a column: `(M.T == True).nonzero()` with
      the two coordinates swapped back. */
  function TrueCells(M: seq<seq<bool>>, rows: nat, cols: nat): (r: seq<(nat, nat)>)
    requires Shaped(M, rows, cols)
    ensures Distinct(r)
    ensures forall c :: c in r <==> c.0 < rows && c.1 < cols && M[c.0][c.1]
  {
    CellsFrom(M, rows, cols, 0, 0)
  }

  /** The true cells from row `i` of column `j` onwards. */
  function CellsFrom(M: seq<seq<bool>>, rows: nat, cols: nat, j: nat, i: nat): (r: seq<(nat, nat)>)
    requires Shaped(M, rows, cols) && j <= cols && i <= rows
    ensures Distinct(r)
    ensures forall c :: c in r <==>
      c.0 < rows && c.1 < cols && M[c.0][c.1] && (j < c.1 || (j == c.1 && i <= c.0))
    decreases cols - j, rows - i
  {
    if j == cols then []
    else if i == rows then CellsFrom(M, rows, cols, j + 1, 0)
    else
      var rest := CellsFrom(M, rows, cols, j, i + 1);
      if M[i][j] then DistinctCons((i, j), rest); [(i, j)] + rest else rest
  }

  /** `M[i, j] = v`. */
  function SetCell<T>(M: seq<seq<T>>, rows: nat, cols: nat, i: nat, j: nat, v: T): (R: seq<seq<T>>)
    requires Shaped(M, rows, cols) && i < rows && j < cols
    ensures Shaped(R, rows, cols)
    ensures forall a, b :: 0 <= a < rows && 0 <= b < cols ==> R[a][b] == (if a == i && b == j then v else M[a][b])
  {
    M[i := M[i][j := v]]
  }

  /** `a` precedes `b` in row-major (C) order. */
  predicate RowMajorBefore(a: (nat, nat), b: (nat, nat)) {
    a.0 < b.0 || (a.0 == b.0 && a.1 < b.1)
  }

  /** Positions of the true cells of `M` in row-major order, the order in
      which boolean indexing `A[M]` lists cells. */
  function RowCells(M: seq<seq<bool>>, rows: nat, cols: nat): (r: seq<(nat, nat)>)
    requires Shaped(M, rows, cols)
    ensures forall c :: c in r <==> c.0 < rows && c.1 < cols && M[c.0][c.1]
    ensures forall a, b :: 0 <= a < b < |r| ==> RowMajorBefore(r[a], r[b])
  {
    RowCellsFrom(M, rows, cols, 0, 0)
  }

  /** The true cells from column `j` of row `i` onwards, row by row. */
  function RowCellsFrom(M: seq<seq<bool>>, rows: nat, cols: nat, i: nat, j: nat): (r: seq<(nat, nat)>)
    requires Shaped(M, rows, cols) && i <= rows && j <= cols
    ensures forall c :: c in r <==>
      c.0 < rows && c.1 < cols && M[c.0][c.1] && (i < c.0 || (i == c.0 && j <= c.1))
    ensures forall a, b :: 0 <= a < b < |r| ==> RowMajorBefore(r[a], r[b])
    decreases rows - i, cols - j
  {
    if i == rows then []
    else if j == cols then RowCellsFrom(M, rows, cols, i + 1, 0)
    else
      var rest := RowCellsFrom(M, rows, cols, i, j + 1);
      if M[i][j] then
        assert forall b :: 0 <= b < |rest| ==> rest[b] in rest;
        [(i, j)] + rest
      else rest
  }

  /** `A[M]`: the cells of `A` where `M` holds, in row-major order. */
  function Select<T>(A: seq<seq<T>>, M: seq<seq<bool>>, rows: nat, cols: nat): (r: seq<T>)
    requires Shaped(A, rows, cols) && Shaped(M, rows, cols)
    ensures |r| == |RowCells(M, rows, cols)|
    ensures forall k :: 0 <= k < |r| ==>
      RowCells(M, rows, cols)[k].0 < rows && RowCells(M, rows, cols)[k].1 < cols &&
      r[k] == A[RowCells(M, rows, cols)[k].0][RowCells(M, rows, cols)[k].1]
  {
    var cells := RowCells(M, rows, cols);
    seq(|cells|, k requires 0 <= k < |cells| =>
      assert cells[k] in cells;
      A[cells[k].0][cells[k].1])
  }

  /** Row-major order is strict, so no cell is listed twice. */
  lemma RowCellsDistinct(M: seq<seq<bool>>, rows: nat, cols: nat)
    requires Shaped(M, rows, cols)
    ensures Distinct(RowCells(M, rows, cols))
  {
    var r := RowCells(M, rows, cols);
    forall a, b | 0 <= a < b < |r| ensures r[a] != r[b] {
      assert RowMajorBefore(r[a], r[b]);
    }
  }

  /** `A[M] = w`: the `k`-th true cell of `M` in row-major order receives
      `w[k]`; every other cell keeps its value from `A`. */
  function Place<T>(A: seq<seq<T>>, M: seq<seq<bool>>, rows: nat, cols: nat, w: seq<T>): (R: seq<seq<T>>)
    requires Shaped(A, rows, cols) && Shaped(M, rows, cols) && |w| == |RowCells(M, rows, cols)|
    ensures Shaped(R, rows, cols)
    ensures forall i, j :: 0 <= i < rows && 0 <= j < cols && !M[i][j] ==> R[i][j] == A[i][j]
    ensures forall k :: 0 <= k < |w| ==>
      RowCells(M, rows, cols)[k].0 < rows && RowCells(M, rows, cols)[k].1 < cols &&
      R[RowCells(M, rows, cols)[k].0][RowCells(M, rows, cols)[k].1] == w[k]
  {
    var cells := RowCells(M, rows, cols);
    RowCellsDistinct(M, rows, cols);
    var R := seq(rows, i requires 0 <= i < rows => seq(cols, j requires 0 <= j < cols =>
      if M[i][j] then w[IndexOf(cells, (i, j))] else A[i][j]));
    forall k | 0 <= k < |w| ensures cells[k].0 < rows && cells[k].1 < cols && R[cells[k].0][cells[k].1] == w[k] {
      assert cells[k] in cells;
      IndexOfDistinct(cells, k);
    }
    R
  }

  /** Reading the selected cells back after writing `w` into them gives `w`. */
  lemma SelectPlace<T>(A: seq<seq<T>>, M: seq<seq<bool>>, rows: nat, cols: nat, w: seq<T>)
    requires Shaped(A, rows, cols) && Shaped(M, rows, cols) && |w| == |RowCells(M, rows, cols)|
    ensures Select(Place(A, M, rows, cols, w), M, rows, cols) == w
  {
  }

  /** A second write into the same cells overrides the first completely. */
  lemma PlaceTwice<T>(A: seq<seq<T>>, M: seq<seq<bool>>, rows: nat, cols: nat, w1: seq<T>, w2: seq<T>)
    requires Shaped(A, rows, cols) && Shaped(M, rows, cols)
    requires |w1| == |RowCells(M, rows, cols)| && |w2| == |RowCells(M, rows, cols)|
    ensures Place(Place(A, M, rows, cols, w1), M, rows, cols, w2) == Place(A, M, rows, cols, w2)
  {
    var cells := RowCells(M, rows, cols);
    var P, Q := Place(Place(A, M, rows, cols, w1), M, rows, cols, w2), Place(A, M, rows, cols, w2);
    forall i, j | 0 <= i < rows && 0 <= j < cols ensures P[i][j] == Q[i][j] {
      if M[i][j] {
        assert (i, j) in cells;
        var k :| 0 <= k < |cells| && cells[k] == (i, j);
      }
    }
    Extensional(P, Q, rows, cols);
  }
}
