/** The export `done` performs: every cell of the grid is cropped from the image and written,
    under a name built from the image's base name, the cell size and the cell's pixel offsets,
    into the directories its label selects. Writes are returned as a plan instead of performed. */
module Export {
  import opened Wrappers
  import opened Grid
  import opened Labeler
  import Decimal

  /** The labeller's directory list, in its declared order. */
  const Paths: seq<string> := [
    "labeled/burned/", "labeled/burned/first/", "labeled/burned/second/", "labeled/burned/third/",
    "labeled/burned/all/", "labeled/healthy/", "labeled/background/", "labeled/originals/"]

  /** The directories a cell can be written to. */
  datatype Dest = Healthy | Background | BurnedAll | First | Second | Third

  /** The directory prefix each destination is written under, as the export spells it. */
  function DestDir(d: Dest): string {
    match d
    case Healthy => "./labeled/healthy/"
    case Background => "./labeled/background/"
    case BurnedAll => "./labeled/burned/all/"
    case First => Paths[1]
    case Second => Paths[2]
    case Third => Paths[3]
  }

  /** The sub-category destination of a positive label, `paths[label]`. */
  function SpecificDest(code: int): (d: Dest)
    requires 1 <= code <= 3
    ensures DestDir(d) == Paths[code]
    ensures d != BurnedAll && d != Healthy && d != Background
  {
    if code == 1 then First else if code == 2 then Second else Third
  }

  /** The place a relative path names: a leading `./` (the current directory) is dropped, so
      `./labeled/burned/` and `labeled/burned/` name the same directory. */
  function Norm(p: string): string {
    if |p| >= 2 && p[0] == '.' && p[1] == '/' then p[2..] else p
  }

  /** A crop window: pixel rows [`top`, `top + size`) and columns [`left`, `left + size`), all channels. */
  datatype Window = Window(top: nat, left: nat, size: nat)

  /** One planned file: the crop `window` written as `name` + ".bmp" under `dest`. */
  datatype Write = Write(dest: Dest, name: string, window: Window)

  /** The outcome of an export: the writes performed, in order, and the corrupt cell that
      stopped it, if any. */
  datatype ExportRun = ExportRun(writes: seq<Write>, failure: Option<Corrupt>)

  /** How many of `ws` go to `d`. */
  function DestCount(ws: seq<Write>, d: Dest): nat {
    if |ws| == 0 then 0 else (if ws[0].dest == d then 1 else 0) + DestCount(ws[1..], d)
  }

  /** Counting over a concatenation adds up. */
  lemma {:induction false} DestCountAppend(a: seq<Write>, b: seq<Write>, d: Dest)
    ensures DestCount(a + b, d) == DestCount(a, d) + DestCount(b, d)
  {
    if |a| > 0 {
      assert (a + b)[1..] == a[1..] + b;
      DestCountAppend(a[1..], b, d);
    } else {
      assert a + b == b;
    }
  }

  /** How many of `cells` the routing table sends to `d`. */
  function RoutedCount(m: Matrix, spec: bool, cells: seq<Cell>, d: Dest): nat
    requires forall k :: 0 <= k < |cells| ==> InMatrix(m, cells[k])
  {
    if |cells| == 0 then 0
    else (if d in Routes(At(m, cells[0]), spec) then 1 else 0) + RoutedCount(m, spec, cells[1..], d)
  }

  /** The full path a write lands at. */
  function FilePath(w: Write): string {
    DestDir(w.dest) + w.name + ".bmp"
  }

  /** The crop window of `cell`. */
  function CropWindow(cell: Cell, side: nat): Window {
    Window(cell.row * side, cell.col * side, side)
  }

  /** The output name of `cell`: `<base>_size<side>_row<row offset>_col<col offset>`. */
  function FileName(base: string, side: nat, cell: Cell): string {
    base + "_size" + Decimal.NatToString(side) + "_row" + Decimal.NatToString(cell.row * side)
    + "_col" + Decimal.NatToString(cell.col * side)
  }

  /** The routing table: where a cell with label `code` goes, given the specific-mode flag. */
  function Routes(code: int, spec: bool): set<Dest> {
    if code == -1 then {Healthy}
    else if code == 0 then {Background}
    else if 1 <= code <= 3 then {BurnedAll} + (if spec then {SpecificDest(code)} else {})
    else {}
  }

  /** The writes for one cell whose label passed the assert, in the order the export issues them. */
  function CellWrites(code: int, spec: bool, name: string, window: Window): seq<Write>
    requires IsLabel(code)
  {
    if code == -1 then [Write(Healthy, name, window)]
    else if code == 0 then [Write(Background, name, window)]
    else (if spec then [Write(SpecificDest(code), name, window)] else []) + [Write(BurnedAll, name, window)]
  }

  /** A cell's writes all carry its name and window, go exactly to the destinations of the routing
      table, and never to the same destination twice. */
  lemma CellWritesRouted(code: int, spec: bool, name: string, window: Window)
    requires IsLabel(code)
    ensures var ws := CellWrites(code, spec, name, window);
              (forall w :: w in ws <==> w.dest in Routes(code, spec) && w.name == name && w.window == window)
              && forall i, j :: 0 <= i < j < |ws| ==> ws[i] != ws[j]
  {
  }

  /** The routing table: healthy and background cells go to one directory each; a burned cell
      always goes to `labeled/burned/all/`, and also to `paths[label]` exactly in specific mode;
      nothing ever goes to the bare `labeled/burned/` directory; other values go nowhere. */
  lemma RoutesTable(code: int, spec: bool)
    ensures code == -1 ==> Routes(code, spec) == {Healthy}
    ensures code == 0 ==> Routes(code, spec) == {Background}
    ensures 1 <= code <= 3 ==> BurnedAll in Routes(code, spec)
    ensures 1 <= code <= 3 ==>
              forall d :: d in Routes(code, spec) && d != BurnedAll ==> spec && DestDir(d) == Paths[code]
    ensures 1 <= code <= 3 && spec ==> exists d :: d in Routes(code, spec) && DestDir(d) == Paths[code]
    ensures !IsLabel(code) ==> Routes(code, spec) == {}
    ensures forall d :: d in Routes(code, spec) ==> Norm(DestDir(d)) != Norm(Paths[0])
  {
    if 1 <= code <= 3 && spec {
      assert SpecificDest(code) in Routes(code, spec);
    }
  }

  /** `w` is the write of `cells[k]` to one of its routed destinations. */
  predicate Planned(m: Matrix, side: nat, base: string, spec: bool, cell: Cell, w: Write)
    requires InMatrix(m, cell)
  {
    w.dest in Routes(At(m, cell), spec) && w.name == FileName(base, side, cell)
    && w.window == CropWindow(cell, side)
  }

  /** Export the given cells in order, stopping at the first one whose value is no label code
      (the writes of the cells before it have already happened). */
  function ExportCells(m: Matrix, side: nat, base: string, spec: bool, cells: seq<Cell>): ExportRun
    requires forall k :: 0 <= k < |cells| ==> InMatrix(m, cells[k])
  {
    if |cells| == 0 then ExportRun([], None)
    else
      var cell := cells[0];
      var v := At(m, cell);
      if !IsLabel(v) then ExportRun([], Some(Corrupt(cell.row, cell.col, v)))
      else
        var rest := ExportCells(m, side, base, spec, cells[1..]);
        ExportRun(CellWrites(v, spec, FileName(base, side, cell), CropWindow(cell, side)) + rest.writes,
                  rest.failure)
  }

  /** `done`: export every cell of the session's grid in row-major order. */
  function Done(s: Session): ExportRun
    requires HasShape(s.matrix, s.rows, s.cols)
  {
    ExportCells(s.matrix, s.side, s.base, s.labelSpec, RowMajor(s.rows, s.cols))
  }

  /** The export stops exactly at the first corrupt cell, if there is one. */
  lemma {:induction false} ExportCellsFailure(m: Matrix, side: nat, base: string, spec: bool, cells: seq<Cell>)
    requires forall k :: 0 <= k < |cells| ==> InMatrix(m, cells[k])
    ensures ExportCells(m, side, base, spec, cells).failure == FirstCorrupt(m, cells)
  {
    if |cells| > 0 && IsLabel(At(m, cells[0])) {
      ExportCellsFailure(m, side, base, spec, cells[1..]);
    }
  }

  /** The write `w` belongs to `cells[k]`, and `cells[k]` and every cell before it hold label codes. */
  predicate WrittenFor(m: Matrix, side: nat, base: string, spec: bool, cells: seq<Cell>, k: int, w: Write)
    requires forall k :: 0 <= k < |cells| ==> InMatrix(m, cells[k])
  {
    0 <= k < |cells| && Planned(m, side, base, spec, cells[k], w)
    && forall j :: 0 <= j <= k ==> IsLabel(At(m, cells[j]))
  }

  /** Dropping a valid first cell shifts `WrittenFor` by one position. */
  lemma WrittenForShift(m: Matrix, side: nat, base: string, spec: bool, cells: seq<Cell>, k: int, w: Write)
    requires forall k :: 0 <= k < |cells| ==> InMatrix(m, cells[k])
    requires |cells| > 0 && IsLabel(At(m, cells[0])) && 0 <= k
    ensures WrittenFor(m, side, base, spec, cells, k + 1, w) <==> WrittenFor(m, side, base, spec, cells[1..], k, w)
  {
    var rest := cells[1..];
    if k + 1 < |cells| {
      assert cells[k + 1] == rest[k];
      assert (forall j :: 0 <= j <= k + 1 ==> IsLabel(At(m, cells[j])))
        <==> (forall j :: 0 <= j <= k ==> IsLabel(At(m, rest[j]))) by {
        assert forall j :: 0 <= j <= k ==> rest[j] == cells[j + 1];
      }
    }
  }

  /** A file is written exactly when it is a routed write of some cell, and that cell and every
      cell before it hold label codes. */
  lemma {:induction false} ExportCellsMembers(m: Matrix, side: nat, base: string, spec: bool, cells: seq<Cell>, w: Write)
    requires forall k :: 0 <= k < |cells| ==> InMatrix(m, cells[k])
    ensures w in ExportCells(m, side, base, spec, cells).writes <==>
              exists k :: WrittenFor(m, side, base, spec, cells, k, w)
  {
    if |cells| > 0 && IsLabel(At(m, cells[0])) {
      var cell := cells[0];
      var rest := cells[1..];
      var v := At(m, cell);
      ExportCellsMembers(m, side, base, spec, rest, w);
      CellWritesRouted(v, spec, FileName(base, side, cell), CropWindow(cell, side));
      var ws := CellWrites(v, spec, FileName(base, side, cell), CropWindow(cell, side));
      assert w in ws <==> WrittenFor(m, side, base, spec, cells, 0, w);
      if k :| WrittenFor(m, side, base, spec, rest, k, w) {
        WrittenForShift(m, side, base, spec, cells, k, w);
      }
      if k :| WrittenFor(m, side, base, spec, cells, k, w) {
        if k > 0 {
          WrittenForShift(m, side, base, spec, cells, k - 1, w);
        }
      }
    } else if |cells| > 0 {
      forall k | 0 <= k < |cells|
        ensures !WrittenFor(m, side, base, spec, cells, k, w)
      {
        assert !IsLabel(At(m, cells[0]));
      }
    }
  }

  /** A digit string followed by "_col" can be split only one way. */
  lemma DigitsThenCol(p: string, a: string, c: string, a': string, c': string)
    requires Decimal.AllDigits(a) && Decimal.AllDigits(a')
    requires p + a + "_col" + c == p + a' + "_col" + c'
    ensures a == a' && c == c'
  {
    var l := p + a + "_col" + c;
    var r := p + a' + "_col" + c';
    if |a| < |a'| {
      SeparatorAt(p, a, c);
      DigitAt(p, a', c', |a|);
      assert false;
    } else if |a'| < |a| {
      SeparatorAt(p, a', c');
      DigitAt(p, a, c, |a'|);
      assert false;
    }
    assert a == l[|p|..|p| + |a|];
    assert a' == r[|p|..|p| + |a'|];
    assert c == l[|p| + |a| + 4..];
    assert c' == r[|p| + |a'| + 4..];
  }

  /** The character right after the digits is the '_' of "_col". */
  lemma SeparatorAt(p: string, a: string, c: string)
    ensures (p + a + "_col" + c)[|p| + |a|] == '_'
  {
  }

  /** The characters after `p` start with the digits. */
  lemma DigitAt(p: string, a: string, c: string, i: int)
    ensures 0 <= i < |a| ==> (p + a + "_col" + c)[|p| + i] == a[i]
  {
  }

  /** Within one image and cell size, distinct cells get distinct file names. */
  lemma FileNameInjective(base: string, side: Positive, a: Cell, b: Cell)
    ensures FileName(base, side, a) == FileName(base, side, b) ==> a == b
  {
    if FileName(base, side, a) == FileName(base, side, b) {
      var p := base + "_size" + Decimal.NatToString(side) + "_row";
      DigitsThenCol(p, Decimal.NatToString(a.row * side), Decimal.NatToString(a.col * side),
                    Decimal.NatToString(b.row * side), Decimal.NatToString(b.col * side));
      Decimal.NatToStringInjective(a.row * side, b.row * side);
      Decimal.NatToStringInjective(a.col * side, b.col * side);
      ScaleInjective(a.row, b.row, side);
      ScaleInjective(a.col, b.col, side);
    }
  }

  /** Pixel (`py`, `px`) lies in `win`. */
  predicate Covers(win: Window, py: int, px: int) {
    win.top <= py < win.top + win.size && win.left <= px < win.left + win.size
  }

  /** Cell `i` of `side` pixels ends no later than cell `j` starts, when `i < j`. */
  lemma CellsOrdered(i: nat, j: nat, side: nat)
    requires i < j
    ensures i * side + side <= j * side
  {
    assert i * side + side == (i + 1) * side;
    assert (i + 1) * side <= j * side;
  }

  /** Every crop window of the grid is `side` by `side` and lies inside the image. */
  lemma WindowInsideImage(cell: Cell, side: Positive, height: nat, width: nat)
    requires cell.row < height / side && cell.col < width / side
    ensures var win := CropWindow(cell, side);
              win.size == side && win.top + side <= height && win.left + side <= width
  {
    DivBounds(height, side);
    DivBounds(width, side);
    CellsOrdered(cell.row, height / side, side);
    CellsOrdered(cell.col, width / side, side);
  }

  /** Crop windows of distinct cells share no pixel. */
  lemma WindowsDisjoint(a: Cell, b: Cell, side: Positive, py: int, px: int)
    requires a != b
    ensures !(Covers(CropWindow(a, side), py, px) && Covers(CropWindow(b, side), py, px))
  {
    if a.row < b.row {
      CellsOrdered(a.row, b.row, side);
    } else if b.row < a.row {
      CellsOrdered(b.row, a.row, side);
    } else if a.col < b.col {
      CellsOrdered(a.col, b.col, side);
    } else {
      CellsOrdered(b.col, a.col, side);
    }
  }

  /** The windows tile the grid's pixel area: each of its pixels lies in the window of its cell. */
  lemma WindowsCoverGrid(rows: nat, cols: nat, side: Positive, py: nat, px: nat)
    requires py < rows * side && px < cols * side
    ensures var cell := Cell(py / side, px / side);
              cell.row < rows && cell.col < cols && Covers(CropWindow(cell, side), py, px)
  {
    DivBounds(py, side);
    DivBounds(px, side);
    if py / side >= rows {
      assert rows * side <= (py / side) * side by {
        if rows < py / side {
          CellsOrdered(rows, py / side, side);
        }
      }
      assert false;
    }
    if px / side >= cols {
      assert cols * side <= (px / side) * side by {
        if cols < px / side {
          CellsOrdered(cols, px / side, side);
        }
      }
      assert false;
    }
  }

  /** Over cells that never repeat, an export never issues the same write twice. */
  lemma {:induction false} ExportCellsDistinct(m: Matrix, side: Positive, base: string, spec: bool, cells: seq<Cell>)
    requires forall k :: 0 <= k < |cells| ==> InMatrix(m, cells[k])
    requires forall i, j :: 0 <= i < j < |cells| ==> cells[i] != cells[j]
    ensures var ws := ExportCells(m, side, base, spec, cells).writes;
              forall i, j :: 0 <= i < j < |ws| ==> ws[i] != ws[j]
  {
    if |cells| > 0 && IsLabel(At(m, cells[0])) {
      var cell := cells[0];
      var rest := cells[1..];
      var v := At(m, cell);
      ExportCellsDistinct(m, side, base, spec, rest);
      CellWritesRouted(v, spec, FileName(base, side, cell), CropWindow(cell, side));
      var head := CellWrites(v, spec, FileName(base, side, cell), CropWindow(cell, side));
      var tail := ExportCells(m, side, base, spec, rest).writes;
      var ws := ExportCells(m, side, base, spec, cells).writes;
      assert ws == head + tail;
      forall j | 0 <= j < |tail|
        ensures tail[j] !in head
      {
        ExportCellsMembers(m, side, base, spec, rest, tail[j]);
        var k :| WrittenFor(m, side, base, spec, rest, k, tail[j]);
        assert rest[k] == cells[k + 1];
        FileNameInjective(base, side, cell, rest[k]);
      }
      forall i, j | 0 <= i < j < |ws|
        ensures ws[i] != ws[j]
      {
        if i >= |head| {
          assert ws[i] == tail[i - |head|] && ws[j] == tail[j - |head|];
        } else if j >= |head| {
          assert ws[j] == tail[j - |head|];
        }
      }
    }
  }

  /** The first corrupt cell of a row-major scan, if any, is where `done` stops. */
  lemma DoneStops(s: Session)
    requires HasShape(s.matrix, s.rows, s.cols)
    ensures Done(s).failure.None? <==> AllLabels(s.matrix)
    ensures Done(s).failure.Some? ==> exists k :: IsFirstCorrupt(s.matrix, RowMajor(s.rows, s.cols), k, Done(s).failure.value)
  {
    var cells := RowMajor(s.rows, s.cols);
    ExportCellsFailure(s.matrix, s.side, s.base, s.labelSpec, cells);
    if !AllLabels(s.matrix) {
      var r, c :| 0 <= r < |s.matrix| && 0 <= c < |s.matrix[r]| && !IsLabel(s.matrix[r][c]);
      RowMajorCovers(s.rows, s.cols, Cell(r, c));
      var k :| 0 <= k < |cells| && cells[k] == Cell(r, c);
      assert !IsLabel(At(s.matrix, cells[k]));
    } else {
      assert forall k :: 0 <= k < |cells| ==> IsLabel(At(s.matrix, cells[k]));
    }
  }

  /** A write issued before the export stopped at `cells[k']` belongs to an earlier cell. */
  lemma {:induction false} WrittenBeforeCorrupt(m: Matrix, side: nat, base: string, spec: bool, cells: seq<Cell>,
                                                k': nat, e: Corrupt, w: Write)
    requires forall k :: 0 <= k < |cells| ==> InMatrix(m, cells[k])
    requires IsFirstCorrupt(m, cells, k', e)
    requires w in ExportCells(m, side, base, spec, cells).writes
    ensures exists k :: 0 <= k < k' && w.name == FileName(base, side, cells[k])
  {
    ExportCellsMembers(m, side, base, spec, cells, w);
    var k :| WrittenFor(m, side, base, spec, cells, k, w);
  }

  /** `done` on a corrupt matrix has written only files of cells before the corrupt one. */
  lemma DoneAbortedPrefix(s: Session)
    requires HasShape(s.matrix, s.rows, s.cols)
    requires Done(s).failure.Some?
    ensures var e := Done(s).failure.value;
              forall w :: w in Done(s).writes ==>
                exists cell :: Before(cell, Cell(e.row, e.col)) && w.name == FileName(s.base, s.side, cell)
  {
    var cells := RowMajor(s.rows, s.cols);
    var e := Done(s).failure.value;
    DoneStops(s);
    var k': nat :| IsFirstCorrupt(s.matrix, cells, k', e);
    RowMajorSorted(s.rows, s.cols);
    forall w | w in Done(s).writes
      ensures exists cell :: Before(cell, Cell(e.row, e.col)) && w.name == FileName(s.base, s.side, cell)
    {
      WrittenBeforeCorrupt(s.matrix, s.side, s.base, s.labelSpec, cells, k', e, w);
      var k :| 0 <= k < k' && w.name == FileName(s.base, s.side, cells[k]);
      assert Before(cells[k], cells[k']);
    }
  }

  /** The writes of `done` on a matrix of label codes: `w` is written exactly when it is the crop
      window of some cell of the grid, under that cell's name, to a destination of its label. */
  predicate PlannedFor(s: Session, w: Write)
    requires HasShape(s.matrix, s.rows, s.cols)
  {
    exists r, c :: 0 <= r < s.rows && 0 <= c < s.cols && Planned(s.matrix, s.side, s.base, s.labelSpec, Cell(r, c), w)
  }

  /** Every write of a completed `done` is a routed write of a grid cell. */
  lemma DoneSound(s: Session, w: Write)
    requires HasShape(s.matrix, s.rows, s.cols)
    requires w in Done(s).writes
    ensures PlannedFor(s, w)
  {
    var cells := RowMajor(s.rows, s.cols);
    ExportCellsMembers(s.matrix, s.side, s.base, s.labelSpec, cells, w);
    var k :| WrittenFor(s.matrix, s.side, s.base, s.labelSpec, cells, k, w);
    assert Planned(s.matrix, s.side, s.base, s.labelSpec, Cell(cells[k].row, cells[k].col), w);
  }

  /** On a matrix of label codes, every routed write of every grid cell is issued. */
  lemma DoneComplete(s: Session, w: Write)
    requires HasShape(s.matrix, s.rows, s.cols) && AllLabels(s.matrix)
    requires PlannedFor(s, w)
    ensures w in Done(s).writes
  {
    var cells := RowMajor(s.rows, s.cols);
    var r, c :| 0 <= r < s.rows && 0 <= c < s.cols && Planned(s.matrix, s.side, s.base, s.labelSpec, Cell(r, c), w);
    RowMajorCovers(s.rows, s.cols, Cell(r, c));
    var k :| 0 <= k < |cells| && cells[k] == Cell(r, c);
    assert forall j :: 0 <= j <= k ==> IsLabel(At(s.matrix, cells[j]));
    assert WrittenFor(s.matrix, s.side, s.base, s.labelSpec, cells, k, w);
    ExportCellsMembers(s.matrix, s.side, s.base, s.labelSpec, cells, w);
  }

  /** `done` never issues the same write twice. */
  lemma DoneDistinct(s: Session)
    requires HasShape(s.matrix, s.rows, s.cols)
    ensures var ws := Done(s).writes;
              forall i, j :: 0 <= i < j < |ws| ==> ws[i] != ws[j]
  {
    var cells := RowMajor(s.rows, s.cols);
    RowMajorDistinct(s.rows, s.cols);
    ExportCellsDistinct(s.matrix, s.side, s.base, s.labelSpec, cells);
    assert Done(s).writes == ExportCells(s.matrix, s.side, s.base, s.labelSpec, cells).writes;
  }

  /** On a matrix of label codes, `done` writes exactly the routed files of every cell: the
      cell's crop window, under the cell's name, to each destination of its label; no file twice. */
  lemma DonePlan(s: Session)
    requires HasShape(s.matrix, s.rows, s.cols) && AllLabels(s.matrix)
    ensures Done(s).failure.None?
    ensures forall w :: w in Done(s).writes <==> PlannedFor(s, w)
    ensures var ws := Done(s).writes;
              forall i, j :: 0 <= i < j < |ws| ==> ws[i] != ws[j]
  {
    DoneStops(s);
    DoneDistinct(s);
    forall w
      ensures w in Done(s).writes <==> PlannedFor(s, w)
    {
      if w in Done(s).writes {
        DoneSound(s, w);
      }
      if PlannedFor(s, w) {
        DoneComplete(s, w);
      }
    }
  }

  /** On a valid session `done` completes, and every window it crops lies inside the image. */
  lemma DoneWindowsInside(s: Session)
    requires Valid(s)
    ensures Done(s).failure.None?
    ensures forall w :: w in Done(s).writes ==>
              w.window.size == s.side && w.window.top + s.side <= s.height && w.window.left + s.side <= s.width
  {
    DonePlan(s);
    forall w | w in Done(s).writes
      ensures w.window.size == s.side && w.window.top + s.side <= s.height && w.window.left + s.side <= s.width
    {
      DoneSound(s, w);
      var r, c :| 0 <= r < s.rows && 0 <= c < s.cols && Planned(s.matrix, s.side, s.base, s.labelSpec, Cell(r, c), w);
      WindowInsideImage(Cell(r, c), s.side, s.height, s.width);
    }
  }

  /** In every reachable session `done`'s assert never fires, and every window it crops is
      `dim` pixels square and lies inside the image. */
  lemma DoneReachable(imagePath: string, height: nat, width: nat, dim: Positive, events: seq<Event>)
    ensures var s := Reached(imagePath, height, width, dim, events);
              Done(s).failure.None?
              && forall w :: w in Done(s).writes ==>
                   w.window.size == dim && w.window.top + dim <= height && w.window.left + dim <= width
  {
    DoneWindowsInside(Reached(imagePath, height, width, dim, events));
  }

  /** The file a write lands in, with the spelling of the current directory removed. */
  function Target(w: Write): string {
    Norm(FilePath(w))
  }

  /** The directories of distinct destinations are distinct places: once a leading `./` is
      dropped, they differ at a position both of them have. */
  lemma DirsDiverge(d1: Dest, d2: Dest)
    requires d1 != d2
    ensures var n1, n2 := Norm(DestDir(d1)), Norm(DestDir(d2));
              exists i :: 0 <= i < |n1| && 0 <= i < |n2| && n1[i] != n2[i]
  {
    var n1, n2 := Norm(DestDir(d1)), Norm(DestDir(d2));
    var i := if d1 == Healthy || d2 == Healthy then 8
             else if d1 == Background || d2 == Background then 9
             else 15;
    assert n1[i] != n2[i];
  }

  /** Dropping the leading `./` of a path drops it from the directory part. */
  lemma TargetSplit(w: Write)
    ensures Target(w) == Norm(DestDir(w.dest)) + w.name + ".bmp"
  {
    var dir := DestDir(w.dest);
    if |dir| >= 2 && dir[0] == '.' && dir[1] == '/' {
      assert (dir + w.name + ".bmp")[2..] == dir[2..] + w.name + ".bmp";
    }
  }

  /** A path starts with its directory prefix. */
  lemma PrefixAt(dir: string, name: string, i: int)
    ensures 0 <= i < |dir| ==> (dir + name + ".bmp")[i] == dir[i]
  {
  }

  /** The file a write lands in determines its destination and its name. */
  lemma TargetInjective(w1: Write, w2: Write)
    ensures Target(w1) == Target(w2) ==> w1.dest == w2.dest && w1.name == w2.name
  {
    var p1, p2 := Norm(DestDir(w1.dest)), Norm(DestDir(w2.dest));
    TargetSplit(w1);
    TargetSplit(w2);
    if Target(w1) == Target(w2) {
      if w1.dest != w2.dest {
        DirsDiverge(w1.dest, w2.dest);
        var i :| 0 <= i < |p1| && 0 <= i < |p2| && p1[i] != p2[i];
        PrefixAt(p1, w1.name, i);
        PrefixAt(p2, w2.name, i);
        assert false;
      }
      var n := |Target(w1)|;
      assert w1.name == Target(w1)[|p1|..n - 4];
      assert w2.name == Target(w2)[|p2|..n - 4];
    }
  }

  /** On a matrix of label codes, no two writes of `done` land in the same file: no file of the
      export overwrites another. */
  lemma DonePathsDistinct(s: Session)
    requires HasShape(s.matrix, s.rows, s.cols) && AllLabels(s.matrix)
    ensures var ws := Done(s).writes;
              forall i, j :: 0 <= i < j < |ws| ==> Target(ws[i]) != Target(ws[j])
  {
    var ws := Done(s).writes;
    DoneDistinct(s);
    forall i, j | 0 <= i < j < |ws|
      ensures Target(ws[i]) != Target(ws[j])
    {
      if Target(ws[i]) == Target(ws[j]) {
        TargetInjective(ws[i], ws[j]);
        DoneSound(s, ws[i]);
        DoneSound(s, ws[j]);
        var r1, c1 :| 0 <= r1 < s.rows && 0 <= c1 < s.cols && Planned(s.matrix, s.side, s.base, s.labelSpec, Cell(r1, c1), ws[i]);
        var r2, c2 :| 0 <= r2 < s.rows && 0 <= c2 < s.cols && Planned(s.matrix, s.side, s.base, s.labelSpec, Cell(r2, c2), ws[j]);
        FileNameInjective(s.base, s.side, Cell(r1, c1), Cell(r2, c2));
        assert false;
      }
    }
  }

  /** One cell puts one file in each directory its label routes to and none elsewhere. */
  lemma CellWritesCount(code: int, spec: bool, name: string, window: Window, d: Dest)
    requires IsLabel(code)
    ensures DestCount(CellWrites(code, spec, name, window), d) == if d in Routes(code, spec) then 1 else 0
  {
    if 1 <= code && spec {
      DestCountAppend([Write(SpecificDest(code), name, window)], [Write(BurnedAll, name, window)], d);
    }
  }

  /** A completed export puts exactly as many files in each directory as the routing table sends
      cells there. */
  lemma {:induction false} ExportCellsCount(m: Matrix, side: nat, base: string, spec: bool, cells: seq<Cell>, d: Dest)
    requires forall k :: 0 <= k < |cells| ==> InMatrix(m, cells[k])
    requires forall k :: 0 <= k < |cells| ==> IsLabel(At(m, cells[k]))
    ensures DestCount(ExportCells(m, side, base, spec, cells).writes, d) == RoutedCount(m, spec, cells, d)
  {
    if |cells| > 0 {
      var cell := cells[0];
      var v := At(m, cell);
      var head := CellWrites(v, spec, FileName(base, side, cell), CropWindow(cell, side));
      var tail := ExportCells(m, side, base, spec, cells[1..]).writes;
      assert ExportCells(m, side, base, spec, cells).writes == head + tail;
      ExportCellsCount(m, side, base, spec, cells[1..], d);
      DestCountAppend(head, tail, d);
      CellWritesCount(v, spec, FileName(base, side, cell), CropWindow(cell, side), d);
    }
  }
}
