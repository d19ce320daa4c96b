# Burn labeller: labelling session and export, in Dafny

A model of `BurnLabelerUI`, the interactive tool that shows an image cut into square cells of
`dim` pixels and lets a user paint each cell with a label code: -1 healthy, 0 background, 1, 2
and 3 burned sub-categories. The GUI is reduced to the events it delivers and the image to its
height and width. The model has two parts.

- **Labelling session** (`labeler.dfy`, module `Labeler`). The session is an immutable
  `Session` record:
  - the label matrix, of shape `floor(h/dim)` by `floor(w/dim)`;
  - the cursor label, the held-down flag and the specific-mode flag;
  - the staged `(row, col, code)` triples;
  - the history stack of matrix snapshots.

  Pure functions model the handlers: press, motion, release (snapshot, then commit), undo, the
  five cursor buttons and the specific-mode toggle. `Step`/`Run` apply a sequence of events, and
  `Valid` is the invariant that every run keeps.
- **Overlay** (`overlay.dfy`, module `Overlay`). `Annotate` lists one square per non-zero cell,
  or fails where `annotate`'s assert would fire.
- **Export** (`export.dfy`, module `Export`). `Done` turns the matrix into a plan of writes, each
  a destination directory, a file name and a crop window. The plan stops at the first corrupt
  cell, the same place where `done`'s assert fires.
- Supporting modules:
  - `grid.dfy`: the matrix, label codes, row-major cell order and the first-corrupt scan.
  - `decimal.dfy`: Python `str` on naturals.
  - `basename.dfy`: the `rfind`-based stripping of the directory part of the image path.
  - `wrappers.dfy`: `Option` and `Result`.
  - `scenarios.dfy`: worked 2 by 2 examples.

Pointer coordinates are `Option<real>`: a missing coordinate stands for matplotlib's `None`.
Python's `int()` on a quotient is modelled as truncation toward zero (`Labeler.Trunc`).

## Behaviour worth noting

- **Commit order.** The commit pops staged entries from the end (labeler.py:186-188). When a
  cell is staged more than once in one gesture, the EARLIEST entry is written last and wins. It
  is not last-write-wins. `Labeler.CommitCell` states this and `Scenarios.EarliestEntryWins`
  exhibits it.
- **Simple-mode destination.** In simple mode a positive cell goes to `./labeled/burned/all/`
  (labeler.py:117). Nothing is ever written to `labeled/burned/`.
- **Export on a corrupt cell.** The export checks each cell just before writing it, in row-major
  order. An out-of-range value therefore stops the export only after the files of all earlier
  cells have been written (`Export.DoneAbortedPrefix`, `Scenarios.CorruptCellStops`).
- **Two spellings of the directories.** The export writes to `./labeled/healthy/`,
  `./labeled/background/` and `./labeled/burned/all/` (labeler.py:111-117). The sub-category
  directories come from `paths` (labeler.py:11) and are written without the `./`. Both spellings
  name places relative to the current directory, so the model compares directories and files
  with a leading `./` dropped (`Export.Norm`, `Export.Target`).

## Model

| member | source | states |
|---|---|---|
| Labeler.Init | labeler.py:36-47 | Fails exactly for a zero cell size, which would divide by zero. Otherwise the matrix has floor(h/dim) rows and floor(w/dim) columns, all zero. The cursor is 0, nothing is held or staged, the history is empty, specific mode is off, the base name is the stripped path, and the session satisfies the invariant. |
| Labeler.Trunc | labeler.py:166 | On a non-negative number, `int()` gives the whole number at or below it and within one of it. |
| Labeler.CellIndexBound | labeler.py:94-95 | For a non-negative coordinate, being below n cells' worth of pixels is equivalent to having a cell index below n. |
| Labeler.InBoundsIffOnGrid | labeler.py:94-95 | `inBounds` accepts a coordinate exactly when both of its cell indices name a cell of the matrix. |
| Labeler.StageAtSpec | labeler.py:163-170 | A present, on-grid coordinate appends exactly one triple carrying the cursor, and that cell is inside the matrix. A missing or off-grid coordinate changes nothing. |
| Labeler.Press | labeler.py:159-170 | The pointer becomes held even off the image axes. `staged` grows exactly when the press is on the axes with an on-grid coordinate, by one triple: the cell under the pointer, (int(y/side), int(x/side)), which lies in the grid, with the cursor label. Nothing else changes. |
| Labeler.Motion | labeler.py:172-178 | `staged` grows exactly when the motion is on the axes, the pointer is held and the coordinate is on the grid. It grows by one triple: the cell under the pointer, (int(y/side), int(x/side)), with the cursor label. Otherwise nothing changes, and the held flag never changes. |
| Labeler.Commit | labeler.py:186-188 | Committing staged entries keeps the matrix's shape. |
| Labeler.CommitCell | labeler.py:186-188 | A cell with no staged entry keeps its value. A staged cell ends with the label of its EARLIEST staged entry, because entries are popped from the end. |
| Labeler.CommitStaged | labeler.py:186-188 | The pop-and-assign loop computes the commit: unstaged cells unchanged, each staged cell set to its earliest entry's label. |
| Labeler.Release | labeler.py:180-188 | The pointer is released and `staged` is emptied. With nothing staged, the matrix and history are unchanged. Otherwise exactly one snapshot, the pre-commit matrix, is pushed, and the commit semantics above hold. |
| Labeler.Undo | labeler.py:120-123 | Only the matrix and history change. With an empty history nothing changes. Otherwise the old history is the new history plus the restored matrix. |
| Labeler.SelectLabel | labeler.py:126-139 | A cursor button only sets the cursor, and always to a label code. |
| Labeler.ButtonsCoverLabels | labeler.py:126-139 | The five buttons select exactly the label codes -1..3. |
| Labeler.ToggleSpecific | labeler.py:141-142 | The toggle flips the specific-mode flag and changes nothing else. |
| Labeler.UndoAfterRelease | labeler.py:120-123 | An undo right after a commit restores exactly the pre-commit matrix and history. |
| Labeler.EmptyReleaseIdempotent | labeler.py:183-188 | Releasing with nothing staged leaves the matrix and history unchanged, and doing it twice equals doing it once. |
| Labeler.UndoTimesPops | labeler.py:120-123 | k undos restore the k-th most recent snapshot and drop k history entries. |
| Labeler.Step | labeler.py:159-188 | Every event handler keeps the invariant: matrix shape, label codes only, staged cells in the grid, snapshots well-formed. |
| Labeler.Run | labeler.py:83-85 | Any sequence of events keeps the invariant and the grid geometry. |
| Labeler.Fresh | labeler.py:43-46 | The fresh session is valid: an all-zero grid of floor(height/dim) by floor(width/dim) cells that fit in the image, cursor 0, nothing staged, empty history, simple mode. |
| Labeler.Reached | labeler.py:39-46 | A session built by the constructor and then driven by any sequence of events keeps the invariant, its cell size and its image size. |
| Labeler.ReachableValid | labeler.py:107 | Every reachable session holds only label codes in a grid of floor(height/dim) by floor(width/dim), so the asserts cannot fire. |
| Overlay.NonZeroRectsMembers | labeler.py:149-154 | The squares listed are exactly those of the non-zero cells scanned, each at (col*side, row*side). |
| Overlay.CellRectInjective | labeler.py:154 | Distinct cells get distinct squares. |
| Overlay.AnnotateFailure | labeler.py:149-152 | `annotate` fails exactly when the matrix holds a non-label value, and it reports the first such cell in row-major order. |
| Overlay.AnnotateSquares | labeler.py:144-157 | On a matrix of label codes, `annotate` yields exactly one square per non-zero cell, side by side pixels at (col*side, row*side), with no repeats. |
| Overlay.AnnotateReachable | labeler.py:152 | In every session the constructor and any events can produce, `annotate` never hits its assert. |
| Grid.RowMajorCovers | labeler.py:104-105 | The nested row/col loops visit a cell exactly when it is inside the grid. |
| Grid.RowMajorSorted | labeler.py:104-105 | The loops visit cells in strictly increasing row-major order, so each cell is visited once. |
| Grid.FirstCorrupt | labeler.py:106-107 | The scan finds nothing exactly when every visited value is a label code. Otherwise it names the first offending cell, with every earlier cell valid. |
| Decimal.NatToString | labeler.py:109 | `str` of a natural is a non-empty digit string with no leading zero, and "0" exactly for zero. |
| Decimal.ParsePrinted | labeler.py:109 | Reading the printed digits back gives the original number. |
| Decimal.NatToStringInjective | labeler.py:109 | Distinct numbers print differently. |
| BaseName.RFind | labeler.py:39-42 | `rfind` returns the last index of the character, or -1 when it does not occur. |
| BaseName.StripThroughSpec | labeler.py:39-40 | One stripping step returns a suffix of the path. If the separator occurs past index 0, the suffix contains no separator and starts right after the last one. If not, the path is kept whole, including a lone separator at index 0. |
| BaseName.BaseNameSpec | labeler.py:38-42 | The base name is a suffix of the path, and neither `/` nor `\` occurs in it except possibly at index 0. |
| BaseName.LeadingSeparatorKept | labeler.py:39-40 | A path whose only separator is a leading `/` keeps it, because `rfind` gives 0, which is falsy. |
| BaseName.StripClears | labeler.py:39-40 | One stripping step returns a suffix of the path with no separator past index 0. |
| BaseName.StripAbsent | labeler.py:39-40 | A path without the separator is kept whole, because `rfind` gives -1 and the slice starts at 0. |
| BaseName.StripAfter | labeler.py:39-40 | When the last separator is past index 0, the step keeps exactly what follows it. |
| BaseName.StripLeading | labeler.py:39-40 | When the only separator is at index 0, the step keeps the whole path, because `rfind` gives 0, which is falsy. |
| BaseName.BackslashAfterSlashKept | labeler.py:39-42 | Example: `dir/\burn.jpg` becomes `\burn.jpg`, because the backslash sits at index 0 after the first step. |
| BaseName.SlashPathStripped | labeler.py:39-42 | Example: `unlabeled/burn.jpg` becomes `burn.jpg`. |
| BaseName.BackslashPathStripped | labeler.py:39-42 | Example: `C:\images\burn.jpg` becomes `burn.jpg`. |
| Export.SpecificDest | labeler.py:115-116 | A burned label's sub-category directory is `paths[label]`. It is never `all`, healthy or background. |
| Export.CellWritesRouted | labeler.py:110-117 | A cell's writes all carry its name and window. They go exactly to the destinations of the routing table, never twice to the same one. |
| Export.RoutesTable | labeler.py:110-117 | Routing: -1 goes only to healthy and 0 only to background. 1-3 always go to `burned/all/`, plus `paths[label]` exactly in specific mode. No routed directory is the bare `labeled/burned/`, with or without a leading `./`. |
| Export.ExportCellsFailure | labeler.py:104-107 | The export stops exactly at the first corrupt cell of the scan. |
| Export.ExportCellsMembers | labeler.py:104-117 | A file is written exactly when it is a routed write of some cell and that cell and all earlier cells hold label codes. |
| Export.DigitsThenCol | labeler.py:109 | A digit string followed by `_col` splits in only one way. |
| Export.FileNameInjective | labeler.py:109 | For one base name and cell size, distinct cells get distinct file names. |
| Export.WindowInsideImage | labeler.py:108 | Every cell's crop window is side by side pixels and lies inside the image. |
| Export.WindowsDisjoint | labeler.py:108 | The crop windows of distinct cells share no pixel. |
| Export.WindowsCoverGrid | labeler.py:108 | Every pixel of the gridded area lies in the crop window of its own cell. |
| Export.ExportCellsDistinct | labeler.py:104-117 | Over distinct cells, no write is issued twice. |
| Export.CellWritesCount | labeler.py:110-117 | One cell puts exactly one file in each directory its label routes to and none elsewhere. |
| Export.ExportCellsCount | labeler.py:110-117 | A completed export puts as many files in each directory as the routing table sends cells there. |
| Export.DoneStops | labeler.py:104-107 | `done` completes exactly when the matrix holds only label codes. Otherwise it stops at the first corrupt cell in row-major order. |
| Export.DoneAbortedPrefix | labeler.py:104-111 | On a corrupt matrix, every file already written belongs to a cell before the corrupt one in row-major order. |
| Export.DoneSound | labeler.py:104-117 | Every write of `done` is a routed write of a grid cell. |
| Export.DoneComplete | labeler.py:104-117 | On a matrix of label codes, every routed write of every grid cell is issued. |
| Export.DoneDistinct | labeler.py:104-117 | `done` never issues the same write twice. |
| Export.DonePlan | labeler.py:97-117 | On a matrix of label codes, `done` completes and writes exactly the routed files of every cell, each once. |
| Export.DoneWindowsInside | labeler.py:104-108 | On a valid session `done` completes, and every crop window is side by side pixels inside the image. |
| Export.DoneReachable | labeler.py:104-108 | In every session the constructor and any events can produce, `done`'s assert never fires, and every crop window is dim by dim pixels inside the height by width image. |
| Export.DirsDiverge | labeler.py:11 | Once a leading `./` is dropped, the six destination directories are distinct places. Any two differ at a position both have (labeler.py:111-117 spells three with `./` and three without). |
| Export.TargetSplit | labeler.py:111-117 | The file a write lands in is its directory, with the `./` dropped, followed by the name and `.bmp`. |
| Export.TargetInjective | labeler.py:111-117 | The file a write lands in determines both its directory and its name. |
| Export.DonePathsDistinct | labeler.py:104-117 | On a matrix of label codes, no two writes of `done` land in the same file, even after the `./` is dropped. A burned cell's sub-category and `all` files are therefore different files, and no file of the export overwrites another. |
| Scenarios.SimpleModeCounts | labeler.py:110-117 | 2 by 2 grid (-1, 0 / 1, 1), simple mode: 1 healthy, 1 background and 2 `burned/all` files, and no sub-category files. |
| Scenarios.SpecificModeCounts | labeler.py:114-117 | Same grid with 2 and 3, specific mode: 2 `burned/all`, 1 `second`, 1 `third`, 1 healthy and 1 background file. |
| Scenarios.CorruptCellStops | labeler.py:104-111 | A 5 at cell (0,1) stops the export there, after the healthy file of cell (0,0) was written. |
| Scenarios.EarliestEntryWins | labeler.py:186-188 | Stroke over (0,0) with label 1, then with -1 after a cursor change: after release the cell holds 1, and an undo restores the zero matrix. |

## Left out

- Matplotlib is left out: figure, axes, buttons, event wiring, drawing, window titles and `plt.show`/`plt.close`. The overlay is a list of squares, and its colours (`colors[cellval]`) are left out.
- Export.DonePlan: assumes the image has a channel axis. The crop `self.im[r0:r1, c0:c1, :]` (labeler.py:108) indexes three axes, so a grayscale image, which loads as a 2-D array, raises `IndexError` at cell (0,0) before any file is written. That crash is not modelled, because the model reduces the image to its height and width.
- Export.DoneWindowsInside: claims `done` completes under the same channel-axis assumption as `Export.DonePlan`.
- Export.DoneReachable: claims `done` completes under the same channel-axis assumption as `Export.DonePlan`.
- Image I/O is left out: `imageio.imread`/`imwrite` and the pixel content. The image is its height and width, and a write is a plan entry (destination, name, crop window) rather than bytes on disk.
- The directory bootstrap (labeler.py:16-34) is filesystem I/O and is left out.
- `launch.py` is left out: it lists a directory and starts one session per file, which is I/O and process driving.
- The module-level instantiation (labeler.py:192) and the `isClosing` redraw suppression are left out. `done`'s disconnection of the event handlers is left out too. The model treats the export as the end of the session.
- Floating point is left out. Coordinates are exact reals and the matrix shape is exact integer division, so IEEE rounding is not modelled. In particular, the `IndexError` branch of `on_press` cannot occur here.
- Labeler.Init: a negative `dim` is excluded by the `nat` type rather than modelled. With a negative `dim`, numpy would build an empty or invalid array.
- The exception messages printed by the handlers and by the asserts are left out. A failure carries the cell and the value instead.
