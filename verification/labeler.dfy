/** The labelling session of `BurnLabelerUI`: a label matrix painted by pointer strokes,
    committed on release and undone from a stack of snapshots. The GUI is reduced to the
    events it delivers; the image is reduced to its height and width in pixels. */
module Labeler {
  import opened Wrappers
  import opened Grid
  import BaseName

  /** A cell size in pixels; zero is excluded because the constructor divides by it. */
  type Positive = n: nat | n > 0 witness 1

  /** A pending change: paint the cell at (`row`, `col`) with label `code`. */
  datatype Staged = Staged(row: int, col: int, code: int)

  /** The five label buttons of the window. */
  datatype LabelButton = FirstButton | SecondButton | ThirdButton | HealthyButton | BackgroundButton

  /** The session state. `rows` and `cols` are the matrix shape; `base` is the image's base name. */
  datatype Session = Session(
    base: string,
    height: nat,
    width: nat,
    side: Positive,
    rows: nat,
    cols: nat,
    matrix: Matrix,
    cursor: int,
    heldDown: bool,
    staged: seq<Staged>,
    history: seq<Matrix>,
    labelSpec: bool)

  /** The invariant every reachable session keeps: the matrix has the grid's shape, every value
      is a label code, every staged entry names a cell of the grid with a label code, and every
      snapshot in the history is such a matrix too. */
  predicate Valid(s: Session) {
    s.rows == s.height / s.side && s.cols == s.width / s.side
    && HasShape(s.matrix, s.rows, s.cols) && AllLabels(s.matrix)
    && IsLabel(s.cursor)
    && (forall i :: 0 <= i < |s.staged| ==>
          0 <= s.staged[i].row < s.rows && 0 <= s.staged[i].col < s.cols && IsLabel(s.staged[i].code))
    && (forall k :: 0 <= k < |s.history| ==> HasShape(s.history[k], s.rows, s.cols) && AllLabels(s.history[k]))
  }

  /** Starting a session on an image of `height` by `width` pixels with cells of `dim` pixels. */
  function Init(imagePath: string, height: nat, width: nat, dim: nat): (s: Option<Session>)
    ensures s.None? <==> dim == 0
    ensures s.Some? ==>
      var t := s.value;
      Valid(t) && t.side == dim && t.height == height && t.width == width
      && t.rows * dim <= height < (t.rows + 1) * dim
      && t.cols * dim <= width < (t.cols + 1) * dim
      && (forall r, c :: 0 <= r < t.rows && 0 <= c < t.cols ==> t.matrix[r][c] == 0)
      && t.cursor == 0 && !t.heldDown && t.staged == [] && t.history == [] && !t.labelSpec
      && t.base == BaseName.BaseName(imagePath)
  {
    if dim == 0 then None else Some(Fresh(BaseName.BaseName(imagePath), height, width, dim))
  }

  /** The session `Init` builds once the cell size is known to be positive. */
  function Fresh(base: string, height: nat, width: nat, dim: Positive): (t: Session)
    ensures Valid(t) && t.side == dim && t.height == height && t.width == width && t.base == base
    ensures t.rows * dim <= height < (t.rows + 1) * dim
    ensures t.cols * dim <= width < (t.cols + 1) * dim
    ensures forall r, c :: 0 <= r < t.rows && 0 <= c < t.cols ==> t.matrix[r][c] == 0
    ensures t.cursor == 0 && !t.heldDown && t.staged == [] && t.history == [] && !t.labelSpec
  {
    var rows, cols := height / dim, width / dim;
    DivBounds(height, dim);
    DivBounds(width, dim);
    Session(base, height, width, dim, rows, cols, Zeros(rows, cols), 0, false, [], [], false)
  }

  /** `n / d` cells of `d` pixels fit in `n` pixels, and one more cell would not. */
  lemma DivBounds(n: nat, d: nat)
    requires d > 0
    ensures (n / d) * d <= n < (n / d + 1) * d
  {
    assert n == (n / d) * d + n % d;
  }

  /** Python's `int()` on a number: truncation toward zero. */
  function Trunc(v: real): (i: int)
    ensures v >= 0.0 ==> 0 <= i && i as real <= v < i as real + 1.0
  {
    if v >= 0.0 then v.Floor else -((-v).Floor)
  }

  /** The grid index of pixel coordinate `v`: `int(v / side)`. */
  function CellIndex(v: real, side: Positive): int {
    Trunc(v / side as real)
  }

  /** A non-negative coordinate is below `n` cells' worth of pixels exactly when its cell index is below `n`. */
  lemma CellIndexBound(v: real, n: nat, side: Positive)
    requires 0.0 <= v
    ensures v < (n * side) as real <==> CellIndex(v, side) < n
  {
    var q := v / side as real;
    assert q * side as real == v;
    assert (n * side) as real == n as real * side as real;
    var i := CellIndex(v, side);
    if v < (n * side) as real {
      assert q < n as real;
    } else {
      assert q >= n as real;
    }
  }

  /** `inBounds`: the coordinate lies on the part of the image the grid covers. */
  predicate InBounds(s: Session, y: real, x: real) {
    0.0 <= y < (s.rows * s.side) as real && 0.0 <= x < (s.cols * s.side) as real
  }

  /** A coordinate pair is present and both its cell indices name a cell of the grid. */
  predicate OnGrid(s: Session, y: Option<real>, x: Option<real>) {
    y.Some? && x.Some? && 0.0 <= y.value && 0.0 <= x.value
    && CellIndex(y.value, s.side) < s.rows && CellIndex(x.value, s.side) < s.cols
  }

  /** The pixel test of `inBounds` and the grid test agree. */
  lemma InBoundsIffOnGrid(s: Session, y: real, x: real)
    ensures InBounds(s, y, x) <==> OnGrid(s, Some(y), Some(x))
  {
    if 0.0 <= y && 0.0 <= x {
      CellIndexBound(y, s.rows, s.side);
      CellIndexBound(x, s.cols, s.side);
    }
  }

  /** Stage the cell under the pointer with the cursor label. A missing coordinate raises a
      `TypeError` in `inBounds`, which the handlers catch and ignore, so it stages nothing. */
  function StageAt(s: Session, y: Option<real>, x: Option<real>): Session {
    if y.Some? && x.Some? && InBounds(s, y.value, x.value) then
      s.(staged := s.staged + [Staged(CellIndex(y.value, s.side), CellIndex(x.value, s.side), s.cursor)])
    else
      s
  }

  /** What a staging attempt does: on the grid it appends exactly one in-grid triple carrying the
      cursor; otherwise it leaves the session as it was. */
  lemma StageAtSpec(s: Session, y: Option<real>, x: Option<real>)
    ensures var t := StageAt(s, y, x);
              t == s.(staged := t.staged)
              && (OnGrid(s, y, x) ==>
              |t.staged| == |s.staged| + 1 && t.staged[..|s.staged|] == s.staged
              && var e := t.staged[|s.staged|];
               e.code == s.cursor && 0 <= e.row < s.rows && 0 <= e.col < s.cols
               && e.row == CellIndex(y.value, s.side) && e.col == CellIndex(x.value, s.side))
              && (!OnGrid(s, y, x) ==> t == s)
  {
    if y.Some? && x.Some? {
      InBoundsIffOnGrid(s, y.value, x.value);
      var t := StageAt(s, y, x);
      if OnGrid(s, y, x) {
        assert t.staged[..|s.staged|] == s.staged;
      }
    }
  }

  /** `on_press`: the pointer is held from now on; a press on the image axes stages its cell. */
  function Press(s: Session, inAxes: bool, y: Option<real>, x: Option<real>): (t: Session)
    ensures t.heldDown
    ensures t == s.(heldDown := true, staged := t.staged)
    ensures t.staged != s.staged <==> inAxes && OnGrid(s, y, x)
    ensures t.staged != s.staged ==>
      |t.staged| == |s.staged| + 1 && t.staged[..|s.staged|] == s.staged
      && var e := t.staged[|s.staged|];
         e.code == s.cursor && 0 <= e.row < s.rows && 0 <= e.col < s.cols
         && e.row == CellIndex(y.value, s.side) && e.col == CellIndex(x.value, s.side)
  {
    StageAtSpec(s.(heldDown := true), y, x);
    var held := s.(heldDown := true);
    if inAxes then StageAt(held, y, x) else held
  }

  /** `on_motion`: a drag on the image axes stages its cell, but only while the pointer is held. */
  function Motion(s: Session, inAxes: bool, y: Option<real>, x: Option<real>): (t: Session)
    ensures t == s.(staged := t.staged)
    ensures t.staged != s.staged <==> inAxes && s.heldDown && OnGrid(s, y, x)
    ensures t.staged != s.staged ==>
      |t.staged| == |s.staged| + 1 && t.staged[..|s.staged|] == s.staged
      && var e := t.staged[|s.staged|];
         e.code == s.cursor && 0 <= e.row < s.rows && 0 <= e.col < s.cols
         && e.row == CellIndex(y.value, s.side) && e.col == CellIndex(x.value, s.side)
  {
    StageAtSpec(s, y, x);
    if inAxes && s.heldDown then StageAt(s, y, x) else s
  }

  /** Every staged entry names an entry of `m`. */
  predicate Fits(m: Matrix, staged: seq<Staged>) {
    forall i :: 0 <= i < |staged| ==>
      0 <= staged[i].row < |m| && 0 <= staged[i].col < |m[staged[i].row]|
  }

  /** The entry `staged[i]` is for the cell (`r`, `c`). */
  predicate StagedAt(staged: seq<Staged>, i: int, r: int, c: int)
    requires 0 <= i < |staged|
  {
    staged[i].row == r && staged[i].col == c
  }

  /** `staged[i]` is the earliest entry for the cell (`r`, `c`). */
  predicate EarliestAt(staged: seq<Staged>, i: int, r: int, c: int) {
    0 <= i < |staged| && StagedAt(staged, i, r, c)
    && forall j :: 0 <= j < i ==> !StagedAt(staged, j, r, c)
  }

  /** Apply the staged entries to `m` the way `on_release` does: popping from the end, so the
      last entry is written first and the earliest entry for a cell is written last. */
  function Commit(m: Matrix, staged: seq<Staged>): (m': Matrix)
    requires Fits(m, staged)
    ensures |m'| == |m| && forall r :: 0 <= r < |m| ==> |m'[r]| == |m[r]|
    decreases |staged|
  {
    if |staged| == 0 then m
    else
      var e := staged[|staged| - 1];
      Commit(Set(m, e.row, e.col, e.code), staged[..|staged| - 1])
  }

  /** Commit changes only staged cells, and each staged cell ends with its earliest entry's label. */
  lemma {:induction false} CommitCell(m: Matrix, staged: seq<Staged>, r: int, c: int)
    requires Fits(m, staged)
    requires 0 <= r < |m| && 0 <= c < |m[r]|
    ensures (forall i :: 0 <= i < |staged| ==> !StagedAt(staged, i, r, c)) ==> Commit(m, staged)[r][c] == m[r][c]
    ensures forall i :: EarliestAt(staged, i, r, c) ==> Commit(m, staged)[r][c] == staged[i].code
    decreases |staged|
  {
    if |staged| > 0 {
      var n := |staged| - 1;
      var e := staged[n];
      var prefix := staged[..n];
      var m1 := Set(m, e.row, e.col, e.code);
      forall j | 0 <= j < n
        ensures prefix[j] == staged[j]
        ensures StagedAt(prefix, j, r, c) <==> StagedAt(staged, j, r, c)
      {
      }
      assert Fits(m1, prefix);
      CommitCell(m1, prefix, r, c);
      assert Commit(m, staged) == Commit(m1, prefix);
      forall i | EarliestAt(staged, i, r, c)
        ensures Commit(m, staged)[r][c] == staged[i].code
      {
        if i < n {
          assert EarliestAt(prefix, i, r, c);
        } else {
          assert forall j :: 0 <= j < n ==> !StagedAt(prefix, j, r, c);
        }
      }
      if forall i :: 0 <= i < |staged| ==> !StagedAt(staged, i, r, c) {
        assert forall j :: 0 <= j < n ==> !StagedAt(prefix, j, r, c);
        assert !StagedAt(staged, n, r, c);
      }
    }
  }

  /** `CommitCell` for every cell at once. */
  lemma CommitCells(m: Matrix, staged: seq<Staged>)
    requires Fits(m, staged)
    ensures forall r, c :: 0 <= r < |m| && 0 <= c < |m[r]|
              && (forall i :: 0 <= i < |staged| ==> !StagedAt(staged, i, r, c))
              ==> Commit(m, staged)[r][c] == m[r][c]
    ensures forall r, c, i :: 0 <= r < |m| && 0 <= c < |m[r]| && EarliestAt(staged, i, r, c)
              ==> Commit(m, staged)[r][c] == staged[i].code
  {
    forall r, c | 0 <= r < |m| && 0 <= c < |m[r]| {
      CommitCell(m, staged, r, c);
    }
  }

  /** The commit loop of `on_release` (`while len(staged): staged.pop()` and assign). */
  method CommitStaged(m: Matrix, staged: seq<Staged>) returns (m': Matrix)
    requires Fits(m, staged)
    ensures m' == Commit(m, staged)
    ensures |m'| == |m| && forall r :: 0 <= r < |m| ==> |m'[r]| == |m[r]|
    ensures forall r, c :: 0 <= r < |m| && 0 <= c < |m[r]|
              && (forall i :: 0 <= i < |staged| ==> !StagedAt(staged, i, r, c))
              ==> m'[r][c] == m[r][c]
    ensures forall r, c, i :: 0 <= r < |m| && 0 <= c < |m[r]| && EarliestAt(staged, i, r, c)
              ==> m'[r][c] == staged[i].code
  {
    m' := m;
    var rest := staged;
    while |rest| > 0
      invariant |m'| == |m| && forall r :: 0 <= r < |m| ==> |m'[r]| == |m[r]|
      invariant rest == staged[..|rest|]
      invariant Fits(m', rest)
      invariant Commit(m', rest) == Commit(m, staged)
      decreases |rest|
    {
      var e := rest[|rest| - 1];
      rest := rest[..|rest| - 1];
      m' := Set(m', e.row, e.col, e.code);
    }
    CommitCells(m, staged);
  }

  /** `on_release`: the pointer is no longer held; if anything is staged, the current matrix is
      pushed on the history, the staged entries are committed and the stage is emptied. */
  function Release(s: Session): (t: Session)
    requires Fits(s.matrix, s.staged)
    ensures !t.heldDown && t.staged == []
    ensures t == s.(heldDown := false, staged := [], matrix := t.matrix, history := t.history)
    ensures |s.staged| == 0 ==> t.matrix == s.matrix && t.history == s.history
    ensures |s.staged| > 0 ==> t.history == s.history + [s.matrix]
    ensures |t.matrix| == |s.matrix| && forall r :: 0 <= r < |s.matrix| ==> |t.matrix[r]| == |s.matrix[r]|
    ensures forall r, c :: 0 <= r < |s.matrix| && 0 <= c < |s.matrix[r]|
              && (forall i :: 0 <= i < |s.staged| ==> !StagedAt(s.staged, i, r, c))
              ==> t.matrix[r][c] == s.matrix[r][c]
    ensures forall r, c, i :: 0 <= r < |s.matrix| && 0 <= c < |s.matrix[r]| && EarliestAt(s.staged, i, r, c)
              ==> t.matrix[r][c] == s.staged[i].code
  {
    CommitCells(s.matrix, s.staged);
    var history := if |s.staged| > 0 then s.history + [s.matrix] else s.history;
    s.(heldDown := false, staged := [], matrix := Commit(s.matrix, s.staged), history := history)
  }

  /** `undo`: restore the most recent snapshot, if there is one. */
  function Undo(s: Session): (t: Session)
    ensures t == s.(matrix := t.matrix, history := t.history)
    ensures |s.history| == 0 ==> t == s
    ensures |s.history| > 0 ==> s.history == t.history + [t.matrix]
  {
    if |s.history| > 0 then
      s.(matrix := s.history[|s.history| - 1], history := s.history[..|s.history| - 1])
    else
      s
  }

  /** The label each button selects. */
  function ButtonLabel(b: LabelButton): int {
    match b
    case FirstButton => 1
    case SecondButton => 2
    case ThirdButton => 3
    case HealthyButton => -1
    case BackgroundButton => 0
  }

  /** The cursor setters: only the cursor changes, and only ever to a label code. */
  function SelectLabel(s: Session, b: LabelButton): (t: Session)
    ensures IsLabel(t.cursor)
    ensures t == s.(cursor := t.cursor)
  {
    s.(cursor := ButtonLabel(b))
  }

  /** `specificToggle`: only the specific-mode flag changes, and it flips. */
  function ToggleSpecific(s: Session): (t: Session)
    ensures t.labelSpec != s.labelSpec
    ensures t == s.(labelSpec := t.labelSpec)
  {
    s.(labelSpec := !s.labelSpec)
  }

  /** The five buttons select exactly the five label codes. */
  lemma ButtonsCoverLabels(v: int)
    ensures IsLabel(v) <==> exists b :: ButtonLabel(b) == v
  {
    if v == 1 { assert ButtonLabel(FirstButton) == v; }
    if v == 2 { assert ButtonLabel(SecondButton) == v; }
    if v == 3 { assert ButtonLabel(ThirdButton) == v; }
    if v == -1 { assert ButtonLabel(HealthyButton) == v; }
    if v == 0 { assert ButtonLabel(BackgroundButton) == v; }
  }

  /** An undo right after a commit restores exactly the matrix and history before it. */
  lemma UndoAfterRelease(s: Session)
    requires Fits(s.matrix, s.staged)
    requires |s.staged| > 0
    ensures Undo(Release(s)).matrix == s.matrix
    ensures Undo(Release(s)).history == s.history
  {
    var t := Release(s);
    assert t.history[..|t.history| - 1] == s.history;
  }

  /** Releasing with nothing staged twice in a row changes neither the matrix nor the history. */
  lemma EmptyReleaseIdempotent(s: Session)
    requires s.staged == []
    ensures Release(Release(s)) == Release(s)
    ensures Release(s).matrix == s.matrix && Release(s).history == s.history
  {
  }

  /** `k` undos in a row. */
  function UndoTimes(s: Session, k: nat): Session
    decreases k
  {
    if k == 0 then s else UndoTimes(Undo(s), k - 1)
  }

  /** The history is a stack: `k` undos restore the `k`-th most recent snapshot and drop `k` entries. */
  lemma {:induction false} UndoTimesPops(s: Session, k: nat)
    requires 0 < k <= |s.history|
    ensures UndoTimes(s, k).matrix == s.history[|s.history| - k]
    ensures UndoTimes(s, k).history == s.history[..|s.history| - k]
    decreases k
  {
    var u := Undo(s);
    if k > 1 {
      UndoTimesPops(u, k - 1);
      assert u.history[|u.history| - (k - 1)] == s.history[|s.history| - k];
      assert u.history[..|u.history| - (k - 1)] == s.history[..|s.history| - k];
    }
  }

  /** The events the window delivers to the session. */
  datatype Event =
    | PressEvent(inAxes: bool, y: Option<real>, x: Option<real>)
    | MotionEvent(inAxes: bool, y: Option<real>, x: Option<real>)
    | ReleaseEvent
    | UndoEvent
    | SelectEvent(button: LabelButton)
    | ToggleEvent

  /** One event applied to a valid session. */
  function Step(s: Session, e: Event): (t: Session)
    requires Valid(s)
    ensures Valid(t)
    ensures t.rows == s.rows && t.cols == s.cols && t.side == s.side && t.base == s.base
    ensures t.height == s.height && t.width == s.width
  {
    match e
    case PressEvent(inAxes, y, x) => Press(s, inAxes, y, x)
    case MotionEvent(inAxes, y, x) => Motion(s, inAxes, y, x)
    case ReleaseEvent =>
      var t := Release(s);
      assert forall r, c :: 0 <= r < |s.matrix| && 0 <= c < |s.matrix[r]| ==> IsLabel(t.matrix[r][c]) by {
        forall r, c | 0 <= r < |s.matrix| && 0 <= c < |s.matrix[r]|
          ensures IsLabel(t.matrix[r][c])
        {
          if i :| EarliestAt(s.staged, i, r, c) {
          } else {
            forall i | 0 <= i < |s.staged|
              ensures !StagedAt(s.staged, i, r, c)
            {
              if StagedAt(s.staged, i, r, c) {
                EarliestExists(s.staged, i, r, c);
              }
            }
          }
        }
      }
      t
    case UndoEvent => Undo(s)
    case SelectEvent(b) => SelectLabel(s, b)
    case ToggleEvent => ToggleSpecific(s)
  }

  /** If some entry is for (`r`, `c`), an earliest one exists. */
  lemma {:induction false} EarliestExists(staged: seq<Staged>, i: int, r: int, c: int)
    requires 0 <= i < |staged| && StagedAt(staged, i, r, c)
    ensures exists j :: EarliestAt(staged, j, r, c)
    decreases i
  {
    if exists j :: 0 <= j < i && StagedAt(staged, j, r, c) {
      var j :| 0 <= j < i && StagedAt(staged, j, r, c);
      EarliestExists(staged, j, r, c);
    } else {
      assert EarliestAt(staged, i, r, c);
    }
  }

  /** A run of events from `s`, in order. */
  function Run(s: Session, events: seq<Event>): (t: Session)
    requires Valid(s)
    ensures Valid(t)
    ensures t.rows == s.rows && t.cols == s.cols && t.side == s.side && t.base == s.base
    ensures t.height == s.height && t.width == s.width
    decreases |events|
  {
    if |events| == 0 then s else Run(Step(s, events[0]), events[1..])
  }

  /** The session reached by a run of events from a fresh session on the given image. */
  function Reached(imagePath: string, height: nat, width: nat, dim: Positive, events: seq<Event>): (s: Session)
    ensures Valid(s)
    ensures s.side == dim && s.height == height && s.width == width
  {
    Run(Init(imagePath, height, width, dim).value, events)
  }

  /** Every reachable session keeps the invariant: in particular its matrix holds only label
      codes and has the grid's shape. */
  lemma ReachableValid(imagePath: string, height: nat, width: nat, dim: Positive, events: seq<Event>)
    ensures var s := Reached(imagePath, height, width, dim, events);
              AllLabels(s.matrix) && HasShape(s.matrix, height / dim, width / dim)
  {
    var s0 := Init(imagePath, height, width, dim).value;
    assert s0.rows == height / dim && s0.cols == width / dim;
  }
}
