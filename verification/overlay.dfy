/** The highlight overlay `annotate` draws: one translucent square per labelled cell. */
module Overlay {
  import opened Wrappers
  import opened Grid
  import opened Labeler

  /** A square of `size` pixels whose corner is at pixel (`x`, `y`), coloured by label `code`. */
  datatype Rect = Rect(x: nat, y: nat, size: nat, code: int)

  /** The square over `cell`: x from the column, y from the row. */
  function CellRect(cell: Cell, side: nat, code: int): Rect {
    Rect(cell.col * side, cell.row * side, side, code)
  }

  /** The squares for the non-background cells among `cells`, in order. */
  function NonZeroRects(m: Matrix, side: nat, cells: seq<Cell>): seq<Rect>
    requires forall k :: 0 <= k < |cells| ==> InMatrix(m, cells[k])
  {
    if |cells| == 0 then []
    else
      var v := At(m, cells[0]);
      (if v != 0 then [CellRect(cells[0], side, v)] else []) + NonZeroRects(m, side, cells[1..])
  }

  /** `annotate`: scan the matrix in row-major order, failing its assert at the first cell that
      holds no label code, and otherwise list a square for every non-zero cell. */
  function Annotate(s: Session): Result<seq<Rect>, Corrupt>
    requires HasShape(s.matrix, s.rows, s.cols)
  {
    var cells := RowMajor(s.rows, s.cols);
    match FirstCorrupt(s.matrix, cells)
    case Some(e) => Failure(e)
    case None => Success(NonZeroRects(s.matrix, s.side, cells))
  }

  /** Membership in the overlay: exactly the squares of non-zero cells among `cells`. */
  lemma {:induction false} NonZeroRectsMembers(m: Matrix, side: nat, cells: seq<Cell>, rect: Rect)
    requires forall k :: 0 <= k < |cells| ==> InMatrix(m, cells[k])
    ensures rect in NonZeroRects(m, side, cells) <==>
              exists k :: 0 <= k < |cells| && At(m, cells[k]) != 0 && rect == CellRect(cells[k], side, At(m, cells[k]))
  {
    if |cells| > 0 {
      var rest := cells[1..];
      NonZeroRectsMembers(m, side, rest, rect);
      if exists k :: 0 <= k < |rest| && At(m, rest[k]) != 0 && rect == CellRect(rest[k], side, At(m, rest[k])) {
        var k :| 0 <= k < |rest| && At(m, rest[k]) != 0 && rect == CellRect(rest[k], side, At(m, rest[k]));
        assert cells[k + 1] == rest[k];
      }
      if exists k :: 0 <= k < |cells| && At(m, cells[k]) != 0 && rect == CellRect(cells[k], side, At(m, cells[k])) {
        var k :| 0 <= k < |cells| && At(m, cells[k]) != 0 && rect == CellRect(cells[k], side, At(m, cells[k]));
        if k > 0 {
          assert rest[k - 1] == cells[k];
        }
      }
    }
  }

  /** Squares of distinct cells differ. */
  lemma CellRectInjective(a: Cell, b: Cell, side: Positive, u: int, v: int)
    requires a != b
    ensures CellRect(a, side, u) != CellRect(b, side, v)
  {
    ScaleInjective(a.row, b.row, side);
    ScaleInjective(a.col, b.col, side);
  }

  /** Over cells that never repeat, the overlay never repeats a square. */
  lemma {:induction false} NonZeroRectsDistinct(m: Matrix, side: Positive, cells: seq<Cell>)
    requires forall k :: 0 <= k < |cells| ==> InMatrix(m, cells[k])
    requires forall i, j :: 0 <= i < j < |cells| ==> cells[i] != cells[j]
    ensures var rs := NonZeroRects(m, side, cells);
              forall i, j :: 0 <= i < j < |rs| ==> rs[i] != rs[j]
  {
    if |cells| > 0 {
      var rest := cells[1..];
      NonZeroRectsDistinct(m, side, rest);
      var head := if At(m, cells[0]) != 0 then [CellRect(cells[0], side, At(m, cells[0]))] else [];
      var tail := NonZeroRects(m, side, rest);
      var rs := NonZeroRects(m, side, cells);
      assert rs == head + tail;
      forall j | 0 <= j < |tail|
        ensures tail[j] !in head
      {
        NonZeroRectsMembers(m, side, rest, tail[j]);
        var k :| 0 <= k < |rest| && At(m, rest[k]) != 0 && tail[j] == CellRect(rest[k], side, At(m, rest[k]));
        assert rest[k] == cells[k + 1];
        if |head| == 1 {
          CellRectInjective(cells[0], rest[k], side, At(m, cells[0]), At(m, rest[k]));
        }
      }
      forall i, j | 0 <= i < j < |rs|
        ensures rs[i] != rs[j]
      {
        if i >= |head| {
          assert rs[i] == tail[i - |head|] && rs[j] == tail[j - |head|];
        } else {
          assert rs[j] == tail[j - |head|];
        }
      }
    }
  }

  /** The overlay fails exactly when the matrix holds a non-label, and then it reports the first
      such cell in row-major order. */
  lemma AnnotateFailure(s: Session)
    requires HasShape(s.matrix, s.rows, s.cols)
    ensures Annotate(s).Failure? <==> !AllLabels(s.matrix)
    ensures Annotate(s).Failure? ==>
              exists k :: IsFirstCorrupt(s.matrix, RowMajor(s.rows, s.cols), k, Annotate(s).error)
  {
    var cells := RowMajor(s.rows, s.cols);
    if !AllLabels(s.matrix) {
      var r, c :| 0 <= r < |s.matrix| && 0 <= c < |s.matrix[r]| && !IsLabel(s.matrix[r][c]);
      RowMajorCovers(s.rows, s.cols, Cell(r, c));
      var k :| 0 <= k < |cells| && cells[k] == Cell(r, c);
      assert !IsLabel(At(s.matrix, cells[k]));
    } else {
      assert forall k :: 0 <= k < |cells| ==> IsLabel(At(s.matrix, cells[k]));
    }
  }

  /** On a matrix of label codes the overlay holds exactly one square per non-zero cell, at
      (`col * side`, `row * side`), `side` pixels wide, carrying the cell's label. */
  lemma AnnotateSquares(s: Session)
    requires HasShape(s.matrix, s.rows, s.cols) && AllLabels(s.matrix)
    ensures Annotate(s).Success?
    ensures forall rect :: rect in Annotate(s).value <==>
              exists r, c :: 0 <= r < s.rows && 0 <= c < s.cols && s.matrix[r][c] != 0
                && rect == Rect(c * s.side, r * s.side, s.side, s.matrix[r][c])
    ensures var rs := Annotate(s).value;
              forall i, j :: 0 <= i < j < |rs| ==> rs[i] != rs[j]
  {
    AnnotateFailure(s);
    var cells := RowMajor(s.rows, s.cols);
    RowMajorDistinct(s.rows, s.cols);
    NonZeroRectsDistinct(s.matrix, s.side, cells);
    forall rect
      ensures rect in Annotate(s).value <==>
                exists r, c :: 0 <= r < s.rows && 0 <= c < s.cols && s.matrix[r][c] != 0
                  && rect == Rect(c * s.side, r * s.side, s.side, s.matrix[r][c])
    {
      NonZeroRectsMembers(s.matrix, s.side, cells, rect);
      if exists r, c :: 0 <= r < s.rows && 0 <= c < s.cols && s.matrix[r][c] != 0
           && rect == Rect(c * s.side, r * s.side, s.side, s.matrix[r][c]) {
        var r, c :| 0 <= r < s.rows && 0 <= c < s.cols && s.matrix[r][c] != 0
          && rect == Rect(c * s.side, r * s.side, s.side, s.matrix[r][c]);
        RowMajorCovers(s.rows, s.cols, Cell(r, c));
        var k :| 0 <= k < |cells| && cells[k] == Cell(r, c);
        assert rect == CellRect(cells[k], s.side, At(s.matrix, cells[k]));
      }
    }
  }

  /** In every reachable session the overlay's assert never fires. */
  lemma AnnotateReachable(imagePath: string, height: nat, width: nat, dim: Positive, events: seq<Event>)
    ensures Annotate(Reached(imagePath, height, width, dim, events)).Success?
  {
    AnnotateFailure(Reached(imagePath, height, width, dim, events));
  }
}
