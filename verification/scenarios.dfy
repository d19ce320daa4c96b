/** Worked examples of the labeller on a 100 by 100 image with 50-pixel cells (a 2 by 2 grid). */
module Scenarios {
  import opened Wrappers
  import opened Grid
  import opened Labeler
  import opened Export

  /** A finished 2 by 2 session with the given matrix and mode. */
  function Grid2(m: Matrix, spec: bool): Session {
    Session("burn.jpg", 100, 100, 50, 2, 2, m, 0, false, [], [], spec)
  }

  /** Simple mode: one healthy file, one background file and two files in `labeled/burned/all/`;
      nothing in the sub-category directories. */
  lemma SimpleModeCounts()
    ensures var ws := Done(Grid2([[-1, 0], [1, 1]], false)).writes;
              Done(Grid2([[-1, 0], [1, 1]], false)).failure.None?
              && DestCount(ws, Healthy) == 1 && DestCount(ws, Background) == 1
              && DestCount(ws, BurnedAll) == 2
              && DestCount(ws, First) == 0 && DestCount(ws, Second) == 0 && DestCount(ws, Third) == 0
  {
    CountsFromRoutes(Grid2([[-1, 0], [1, 1]], false));
  }

  /** Specific mode with labels 2 and 3: both burned cells go to `all`, one each to `second`
      and `third`. */
  lemma SpecificModeCounts()
    ensures var ws := Done(Grid2([[-1, 0], [2, 3]], true)).writes;
              DestCount(ws, BurnedAll) == 2 && DestCount(ws, Second) == 1 && DestCount(ws, Third) == 1
              && DestCount(ws, First) == 0 && DestCount(ws, Healthy) == 1 && DestCount(ws, Background) == 1
  {
    CountsFromRoutes(Grid2([[-1, 0], [2, 3]], true));
  }

  /** The per-directory counts of a 2 by 2 export, read off the routing table. */
  lemma CountsFromRoutes(s: Session)
    requires s.rows == 2 && s.cols == 2 && HasShape(s.matrix, 2, 2) && AllLabels(s.matrix)
    ensures forall d :: DestCount(Done(s).writes, d) == RoutedCount(s.matrix, s.labelSpec, [Cell(0, 0), Cell(0, 1), Cell(1, 0), Cell(1, 1)], d)
  {
    var cells := RowMajor(2, 2);
    assert cells == [Cell(0, 0), Cell(0, 1), Cell(1, 0), Cell(1, 1)];
    forall d {
      ExportCellsCount(s.matrix, s.side, s.base, s.labelSpec, cells, d);
    }
  }

  /** A corrupt value stops the export at its cell, but the files of the cells before it in
      row-major order have already been written. */
  lemma CorruptCellStops()
    ensures Done(Grid2([[-1, 5], [0, 0]], false)).failure == Some(Corrupt(0, 1, 5))
    ensures |Done(Grid2([[-1, 5], [0, 0]], false)).writes| == 1
    ensures Done(Grid2([[-1, 5], [0, 0]], false)).writes[0].dest == Healthy
  {
    assert RowMajor(2, 2) == [Cell(0, 0), Cell(0, 1), Cell(1, 0), Cell(1, 1)];
  }

  /** A stroke that paints cell (0, 0) with label 1 and then, after the cursor changed, again
      with -1: the commit pops from the end, so the earliest entry (label 1) is written last. */
  lemma EarliestEntryWins()
    ensures var s0 := Grid2(Zeros(2, 2), false);
            var s1 := Press(SelectLabel(s0, FirstButton), true, Some(10.0), Some(10.0));
            var s2 := Motion(SelectLabel(s1, HealthyButton), true, Some(20.0), Some(30.0));
              s2.staged == [Staged(0, 0, 1), Staged(0, 0, -1)]
              && Release(s2).matrix[0][0] == 1
              && Undo(Release(s2)).matrix == s0.matrix
  {
    var s0 := Grid2(Zeros(2, 2), false);
    var s1 := Press(SelectLabel(s0, FirstButton), true, Some(10.0), Some(10.0));
    assert CellIndex(10.0, 50) == 0;
    var s2 := Motion(SelectLabel(s1, HealthyButton), true, Some(20.0), Some(30.0));
    assert CellIndex(20.0, 50) == 0 && CellIndex(30.0, 50) == 0;
    assert EarliestAt(s2.staged, 0, 0, 0);
    UndoAfterRelease(s2);
  }
}
