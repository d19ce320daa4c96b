/** The label matrix of a labelling session: one integer label code per grid cell. */
module Grid {
  import opened Wrappers

  /** A matrix is stored row by row; `m[r][c]` is the label of the cell at row `r`, column `c`. */
  type Matrix = seq<seq<int>>

  /** A grid cell, addressed by row and column. */
  datatype Cell = Cell(row: nat, col: nat)

  /** A cell holding a value outside the label codes, as reported by the labeller's asserts. */
  datatype Corrupt = Corrupt(row: nat, col: nat, value: int)

  /** The label codes: -1 healthy, 0 background, 1, 2 and 3 the burned sub-categories. */
  predicate IsLabel(v: int) {
    -1 <= v <= 3
  }

  /** `m` is a rectangular `rows` by `cols` matrix (a numpy array always is). */
  predicate HasShape(m: Matrix, rows: nat, cols: nat) {
    |m| == rows && forall r :: 0 <= r < rows ==> |m[r]| == cols
  }

  /** Every entry of `m` is a label code. */
  predicate AllLabels(m: Matrix) {
    forall r, c :: 0 <= r < |m| && 0 <= c < |m[r]| ==> IsLabel(m[r][c])
  }

  /** `cell` addresses an entry of `m`. */
  predicate InMatrix(m: Matrix, cell: Cell) {
    cell.row < |m| && cell.col < |m[cell.row]|
  }

  /** The value of `m` at `cell`. */
  function At(m: Matrix, cell: Cell): int
    requires InMatrix(m, cell)
  {
    m[cell.row][cell.col]
  }

  /** A zero-filled matrix, as `np.zeros` builds it. */
  function Zeros(rows: nat, cols: nat): (m: Matrix)
    ensures HasShape(m, rows, cols)
    ensures forall r, c :: 0 <= r < rows && 0 <= c < cols ==> m[r][c] == 0
  {
    seq(rows, _ => seq(cols, _ => 0))
  }

  /** `m` with the entry at (`r`, `c`) replaced by `v`. */
  function Set(m: Matrix, r: nat, c: nat, v: int): (m': Matrix)
    requires r < |m| && c < |m[r]|
    ensures |m'| == |m| && forall i :: 0 <= i < |m| ==> |m'[i]| == |m[i]|
    ensures m'[r][c] == v
    ensures forall i, j :: 0 <= i < |m| && 0 <= j < |m[i]| && (i != r || j != c) ==> m'[i][j] == m[i][j]
  {
    m[r := m[r][c := v]]
  }

  /** Strict row-major order on cells: the order of the nested `for row`, `for col` loops. */
  predicate Before(a: Cell, b: Cell) {
    a.row < b.row || (a.row == b.row && a.col < b.col)
  }

  /** The cells of row `r`, left to right. */
  function RowCells(r: nat, cols: nat): (cells: seq<Cell>)
    ensures |cells| == cols
    ensures forall j :: 0 <= j < cols ==> cells[j] == Cell(r, j)
  {
    seq(cols, j requires 0 <= j < cols => Cell(r, j))
  }

  /** Every cell of a `rows` by `cols` grid, in row-major order. */
  function RowMajor(rows: nat, cols: nat): (cells: seq<Cell>)
    ensures |cells| == rows * cols
    ensures forall k :: 0 <= k < |cells| ==> cells[k].row < rows && cells[k].col < cols
  {
    if rows == 0 then [] else RowMajor(rows - 1, cols) + RowCells(rows - 1, cols)
  }

  /** The row-major enumeration visits every cell of the grid and nothing else. */
  lemma {:induction false} RowMajorCovers(rows: nat, cols: nat, cell: Cell)
    ensures cell in RowMajor(rows, cols) <==> cell.row < rows && cell.col < cols
  {
    if rows > 0 {
      RowMajorCovers(rows - 1, cols, cell);
      if cell.row == rows - 1 && cell.col < cols {
        assert RowCells(rows - 1, cols)[cell.col] == cell;
      }
    }
  }

  /** The row-major enumeration is strictly increasing, so it visits each cell exactly once. */
  lemma {:induction false} RowMajorSorted(rows: nat, cols: nat)
    ensures forall i, j :: 0 <= i < j < |RowMajor(rows, cols)| ==> Before(RowMajor(rows, cols)[i], RowMajor(rows, cols)[j])
  {
    if rows > 0 {
      RowMajorSorted(rows - 1, cols);
      var prefix := RowMajor(rows - 1, cols);
      var last := RowCells(rows - 1, cols);
      var all := RowMajor(rows, cols);
      assert all == prefix + last;
      forall i, j | 0 <= i < j < |all|
        ensures Before(all[i], all[j])
      {
        if j < |prefix| {
          assert all[i] == prefix[i] && all[j] == prefix[j];
        } else if i < |prefix| {
          assert all[i] == prefix[i] && all[j] == last[j - |prefix|];
        } else {
          assert all[i] == last[i - |prefix|] && all[j] == last[j - |prefix|];
        }
      }
    }
  }

  /** The first cell of `cells`, in order, whose value in `m` is not a label code. */
  function FirstCorrupt(m: Matrix, cells: seq<Cell>): (e: Option<Corrupt>)
    requires forall k :: 0 <= k < |cells| ==> InMatrix(m, cells[k])
    ensures e.None? <==> forall k :: 0 <= k < |cells| ==> IsLabel(At(m, cells[k]))
    ensures e.Some? ==> exists k :: 0 <= k < |cells| && IsFirstCorrupt(m, cells, k, e.value)
  {
    if |cells| == 0 then None
    else if !IsLabel(At(m, cells[0])) then
      assert IsFirstCorrupt(m, cells, 0, Corrupt(cells[0].row, cells[0].col, At(m, cells[0])));
      Some(Corrupt(cells[0].row, cells[0].col, At(m, cells[0])))
    else
      var e := FirstCorrupt(m, cells[1..]);
      if e.Some? then
        var k :| 0 <= k < |cells[1..]| && IsFirstCorrupt(m, cells[1..], k, e.value);
        assert IsFirstCorrupt(m, cells, k + 1, e.value);
        e
      else
        e
  }

  /** `e` reports `cells[k]`, which holds a non-label, and every cell before it holds a label. */
  predicate IsFirstCorrupt(m: Matrix, cells: seq<Cell>, k: nat, e: Corrupt)
    requires forall k :: 0 <= k < |cells| ==> InMatrix(m, cells[k])
  {
    k < |cells| && cells[k] == Cell(e.row, e.col) && e.value == At(m, cells[k]) && !IsLabel(e.value)
    && forall j :: 0 <= j < k ==> IsLabel(At(m, cells[j]))
  }

  /** Cells of `d` pixels at distinct indices start at distinct pixel offsets. */
  lemma ScaleInjective(a: nat, b: nat, d: nat)
    requires d > 0
    ensures a * d == b * d ==> a == b
  {
    if a < b {
      assert a * d < b * d;
    } else if b < a {
      assert b * d < a * d;
    }
  }

  /** A row-major enumeration never repeats a cell. */
  lemma RowMajorDistinct(rows: nat, cols: nat)
    ensures forall i, j :: 0 <= i < j < |RowMajor(rows, cols)| ==> RowMajor(rows, cols)[i] != RowMajor(rows, cols)[j]
  {
    RowMajorSorted(rows, cols);
  }
}
