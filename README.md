# Seam carving: a verified model of `seamstress/carver.py`

This project models the core of the `seamstress` package. That core is
content-aware image resizing by seam carving. A **seam** is a connected path
of pixels from the top row to the bottom row, with one pixel per row and
neighbouring rows at most one column apart. The package does four things:

- it finds the seam of least total **energy** with a dynamic program
  (`cheapest_vertical_seam`);
- it deletes a seam from an image (`delete_seam`);
- a `SeamCarver` object finds `count` seams one after another on a shrinking
  working copy (`find_seams`);
- the same object turns the stored seams back into a boolean mask over the
  original image (`_create_mask`), and uses that mask to shrink the image
  (`shrink`) or to paint the seams (`color`).

The Dafny modules follow the program's structure:

| file | module | what it holds |
|---|---|---|
| `grids.dfy` | `Grids` | images as sequences of rows, a `Result` type whose error cases are numpy's exceptions on degenerate shapes, and the `Status` a state-changing call ends with |
| `seam_finder.dfy` | `SeamFinder` | `cheapest_vertical_seam` and its specification: the cost and predecessor tables described by the recurrence they satisfy, the traced seam, its optimality, and the backtrack exactly as the source writes it |
| `masks.dfy` | `Masks` | boolean mask rows and the selection `row[mask]` |
| `seam_remover.dfy` | `SeamRemover` | `delete_seam` |
| `coordinate_mapper.dfy` | `CoordinateMapper` | the coordinate correction inside `_create_mask`, and the proof that selecting with its mask deletes the stored seams one after another |
| `carver.dfy` | `Carver` | the `SeamCarver` class with `find_seams`, `_create_mask`, `shrink` and `color` |

The central results are these:

- `SeamFinder.CheapestVerticalSeam` returns a seam that no seam of the grid
  undercuts. Its tables are the unique solution of the recurrence.
- `Carver.SeamCarver.FindSeams` stores seam `i` as the cheapest seam of the
  image with seams `0 .. i - 1` deleted. It calls the *corrected* finder:
  the source's backtrack has a bug (see Findings), and the class runs on
  the fixed version.
- `Carver.SeamCarver.Shrink` returns exactly the working copy that
  `find_seams` ended with. Seams are stored in coordinates of the narrowed
  images, and `_create_mask` lifts them back to original columns. That
  lifting is what this result depends on. It needs only that each stored
  seam has one in-range column per row (`SeamsFit`). The seams the source's
  backtrack returns meet that condition too (`Carver.AsWrittenSeamFits`),
  so the result also holds for them.

Pixels are an opaque type `P`. Energy is a grid of naturals.

Two facts about `find_seams` (carver.py:30-36) are modelled as the code has
them:

- `find_seams` is not atomic. After a failure the seams appended so far stay
  stored: all `width` of them when the last column cannot be deleted.
- A negative `count` finds no seams and succeeds, because `range(count)` is
  empty.

## Model

| member | source | states |
|---|---|---|
| SeamFinder.ArgMin | seamstress/carver.py:104-109 | `np.argmin` of a non-empty row is an index of that row (ArgMinIsFirstMinimum says which one) |
| SeamFinder.ArgMinIsFirstMinimum | seamstress/carver.py:104-109 | the index `np.argmin` picks holds a smallest element, and every earlier element is strictly larger (first index on ties) |
| SeamFinder.WindowStart | seamstress/carver.py:102 | the window starts one column left of `x`, except at the left border, where it starts at `x` |
| SeamFinder.WindowEnd | seamstress/carver.py:103 | the window ends one column right of `x` (exclusive end `x + 2`), except at the right border, where it ends at `x`; it never passes the row |
| SeamFinder.Pick | seamstress/carver.py:102-104 | the chosen predecessor is the leftmost cheapest column of the window `x-1 .. x+1`, clamped at both borders, and is adjacent to `x` |
| SeamFinder.FirstCheapestUnique | seamstress/carver.py:102-104 | a window has only one leftmost cheapest column, so the tie-break determines the predecessor |
| SeamFinder.PickPredecessor | seamstress/carver.py:102-104 | the shift arithmetic plus the argmin over the row slice picks that same leftmost cheapest column |
| SeamFinder.CellFollows | seamstress/carver.py:104-106 | in tables that satisfy the recurrence, each cell's predecessor is the leftmost cheapest column above it, and its cost is that column's cost plus the cell's energy |
| SeamFinder.Zeros | seamstress/carver.py:95 | a row of `n` zeros, as `np.zeros` allocates it: the predecessors of row 0 |
| SeamFinder.Relax | seamstress/carver.py:101-106 | the row pass produces cost and predecessor rows that satisfy the recurrence |
| SeamFinder.BuildTables | seamstress/carver.py:95-106 | the first `n` rows of the tables satisfy the recurrence (top cost row = top energy row, top predecessors zero) |
| SeamFinder.RecurrenceExtends | seamstress/carver.py:100-106 | appending a row that follows the last one keeps the recurrence |
| SeamFinder.AllTables | seamstress/carver.py:95-106 | the full tables have one row per energy row and satisfy the recurrence |
| SeamFinder.RowsAgree | seamstress/carver.py:95-106 | two tables satisfying the recurrence agree row by row |
| SeamFinder.RecurrenceUnique | seamstress/carver.py:95-106 | the recurrence determines the tables, so any correct filling yields the same tables |
| SeamFinder.FillCell | seamstress/carver.py:102-106 | one cell of row `y` gets the leftmost cheapest predecessor and its cost plus the cell's energy; no other cell of either table changes |
| SeamFinder.FillRow | seamstress/carver.py:101-106 | the column loop writes into row `y` exactly the picks and costs the recurrence gives, and leaves every other row alone |
| SeamFinder.FillRows | seamstress/carver.py:100-106 | the row loop leaves the arrays equal cell-for-cell to the recurrence's tables |
| SeamFinder.FillTables | seamstress/carver.py:95-106 | allocating the arrays, copying the top energy row and filling gives tables equal to the recurrence's tables |
| SeamFinder.Trace | seamstress/carver.py:109-114 | following predecessors up from a bottom column gives one in-range column per row, ending in the start column |
| SeamFinder.TracePrefix | seamstress/carver.py:110-114 | the top part of a traced path is the path traced from its entry in that row |
| SeamFinder.TraceStep | seamstress/carver.py:112 | each entry of a traced path is the predecessor recorded for the entry in the row below |
| SeamFinder.TraceConnected | seamstress/carver.py:109-114 | a traced path is connected |
| SeamFinder.PathEnergyAppend | seamstress/carver.py:105 | extending a path by one row adds exactly that row's cell to its energy |
| SeamFinder.TraceEnergy | seamstress/carver.py:100-114 | a traced path collects exactly the cost recorded for its start cell |
| SeamFinder.CostIsMinimal | seamstress/carver.py:100-106 | no connected path to a cell is cheaper than that cell's recorded cost |
| SeamFinder.CheapestSeam | seamstress/carver.py:87-116 | the finder fails with no rows (`cost[0, :]`) or no columns (argmin of an empty row) and otherwise returns a seam of the grid |
| SeamFinder.TracedSeamIsOptimal | seamstress/carver.py:100-114 | the seam traced from the bottom argmin of any tables satisfying the recurrence is no dearer than any seam |
| SeamFinder.CheapestSeamIsOptimal | seamstress/carver.py:87-116 | no seam of the grid has less energy than the returned seam |
| SeamFinder.TracedSeamEndsAtFirstMinimum | seamstress/carver.py:109 | the traced seam's energy is its bottom cell's cost; no bottom cost is smaller, and every bottom cell to its left costs strictly more |
| SeamFinder.CheapestSeamEndsAtFirstMinimum | seamstress/carver.py:109-116 | the same, for the seam returned: numpy's leftmost tie-break among the cheapest seams |
| SeamFinder.RowSlice | seamstress/carver.py:104 | the slice `cost[y - 1, lo:hi]` has `hi - lo` cells, cell `k` being the array cell `lo + k` |
| SeamFinder.Reverse | seamstress/carver.py:114 | `seam.reverse()`: entry `k` of the result is entry `|s| - 1 - k` of the list collected bottom-up |
| SeamFinder.Backtrack | seamstress/carver.py:109-114 | the backtrack loop (reading the row below, see Findings) collects exactly the traced seam |
| SeamFinder.CheapestVerticalSeam | seamstress/carver.py:87-116 | the method equals `CheapestSeam`: it succeeds iff the grid has a row and a column, returns a seam, and no seam is cheaper |
| SeamFinder.WalkAsWritten | seamstress/carver.py:111-113 | the loop as written collects one in-range column per row |
| SeamFinder.SeamAsWritten | seamstress/carver.py:109-116 | the backtrack as written fails on the same inputs and returns one in-range column per row |
| SeamFinder.WalkAsWrittenStartsAtZero | seamstress/carver.py:111-113 | the as-written walk always ends on row 0 of the predecessor table, which holds zeros |
| SeamFinder.AsWrittenStartsAtColumnZero | seamstress/carver.py:95-113 | as written, every seam of a grid with at least two rows starts in column 0 |
| SeamFinder.AsWrittenCounterexample | seamstress/carver.py:109-116 | on energy `[[1,1,0],[1,1,0]]` the source returns `[0, 2]`, which is not a seam and costs 1 |
| SeamFinder.AsWrittenIsNotCheapest | seamstress/carver.py:87-116 | on the same grid the corrected finder returns `[2, 2]`, of cost 0, and the seam as written costs strictly more |
| SeamFinder.EnergyOfTwoRows | seamstress/carver.py:105 | a two-row path costs the sum of its two cells |
| Masks.CountTrue | seamstress/carver.py:129 | a mask row keeps at most as many cells as it has |
| Masks.Select | seamstress/carver.py:129 | `row[mask]` has one cell per true mask entry |
| Masks.Kept | seamstress/carver.py:129 | the `c`-th kept column is a column of the row whose mask entry is true |
| Masks.KeptCountsBefore | seamstress/carver.py:129 | the `c`-th kept column has exactly `c` kept columns to its left |
| Masks.SelectAt | seamstress/carver.py:129 | cell `c` of `row[mask]` is the row's cell at the `c`-th kept column |
| Masks.SelectAll | seamstress/carver.py:127-129 | an all-true mask selects the whole row |
| Masks.Clear | seamstress/carver.py:128 | clearing a kept column keeps one cell fewer |
| Masks.ClearIsUpdate | seamstress/carver.py:128 | clearing the `d`-th kept column writes `False` at exactly that column |
| Masks.Bump | seamstress/carver.py:53-55 | one step of the correction, defined as the `<=` test and `x += 1` of lines 53-55: the column never lands on the removed column, moves right by at most one, and stays on its side of the removed column |
| Masks.ClearKept | seamstress/carver.py:128-129 | after clearing the `d`-th kept column, kept columns from the `d`-th on move down one place in the count |
| Masks.ClearKeptPastFirst | seamstress/carver.py:128-129 | the inductive step of ClearKept |
| Masks.AllKept | seamstress/carver.py:127 | in an all-true mask, the `c`-th kept column is column `c` |
| Masks.AllCounted | seamstress/carver.py:127 | an all-true mask keeps every cell |
| Masks.CountComplement | seamstress/carver.py:45-48 | a mask and its negation keep every cell between them exactly once |
| SeamRemover.RemoveAt | seamstress/carver.py:127-129 | a row without cell `x` is one shorter, and its cell `i` is the original cell `i`, or `i + 1` from `x` on |
| SeamRemover.RemoveAtMultiset | seamstress/carver.py:129 | removing a cell loses that pixel and no other |
| SeamRemover.RemoveSelected | seamstress/carver.py:128-129 | removing the `c`-th selected cell is selecting with the `c`-th kept column cleared |
| SeamRemover.SeamMaskRow | seamstress/carver.py:127-128 | row `y` of `delete_seam`'s mask is as wide as the image and keeps all cells but one when the seam column is in range |
| SeamRemover.SelectSeamMaskRow | seamstress/carver.py:127-129 | selecting with the mask that is false only at the seam's column removes exactly that cell |
| SeamRemover.DeleteSeam | seamstress/carver.py:119-129 | the reshape fails iff the image has no rows or one column; otherwise the result has one column fewer, and each cell is the original cell shifted past the seam |
| SeamRemover.DeleteSeamRows | seamstress/carver.py:119-129 | each row of the result is the row without the seam's cell, and it keeps every other pixel of that row |
| CoordinateMapper.Lift | seamstress/carver.py:52-55 | the reversed `j` loop over seams `hi - 1 .. lo` moves a column right by at most one per seam and never left |
| CoordinateMapper.Recover | seamstress/carver.py:51-55 | seam `i`'s corrected column lies between its stored column and that column plus `i` |
| CoordinateMapper.LiftInRange | seamstress/carver.py:52-55 | lifting a column of a row narrowed by `hi` seams through seams `hi - 1 .. lo` gives a column of the row narrowed by `lo` seams |
| CoordinateMapper.RecoverInRange | seamstress/carver.py:51-56 | every seam's corrected column lies inside the original image, so the write `mask[y, x]` is in bounds |
| CoordinateMapper.LiftOneMore | seamstress/carver.py:52-55 | lifting through one more seam is bumping past that seam first |
| CoordinateMapper.Narrowed | seamstress/carver.py:32-36 | deleting `k` seams' cells from a row one after another leaves `k` cells fewer |
| CoordinateMapper.NarrowedPrefix | seamstress/carver.py:32-36 | deleting `k` seams reads only the first `k` entries of the layer (one row's columns of the seams, a tuple of `zip(*seams)`) |
| CoordinateMapper.NarrowedAt | seamstress/carver.py:32-36 | cell `x` of the narrowed row is the original cell whose column lifts from `x` |
| CoordinateMapper.MaskRow | seamstress/carver.py:45-56 | the mask row after the first `k` seams is as wide as the image |
| CoordinateMapper.MaskRowMarks | seamstress/carver.py:45-56 | the mask holds `inverted` exactly at the corrected columns of the seams written so far |
| CoordinateMapper.MaskRowKept | seamstress/carver.py:45-56 | the plain mask keeps `w - k` cells, and its `x`-th kept column is column `x` of the narrowed row lifted to the original row |
| CoordinateMapper.MaskRowKeptStep | seamstress/carver.py:51-56 | the inductive step of MaskRowKept: seam `k - 1`'s corrected column is the `layer[k - 1]`-th kept column before it is written |
| CoordinateMapper.SelectMaskRowIsNarrowed | seamstress/carver.py:59-67 | selecting a row with the plain mask is deleting the seams one after another, as `find_seams` did |
| CoordinateMapper.RecoverDistinct | seamstress/carver.py:50-56 | distinct seams take out distinct original cells of a row |
| CoordinateMapper.MaskRowInverted | seamstress/carver.py:45-48 | the inverted mask is the plain mask negated, cell by cell |
| CoordinateMapper.OneSeamMask | seamstress/carver.py:51-56 | with a single stored seam no correction happens: the mask differs only at the seam's own column |
| CoordinateMapper.InvertedMaskCount | seamstress/carver.py:76-84 | the inverted mask is true in exactly one cell per stored seam in every row |
| Carver.Layer | seamstress/carver.py:50 | row `y`'s layer has one column per stored seam |
| Carver.LayersInFrames | seamstress/carver.py:50-56 | each layer's seam `i` is a column of the image narrowed by `i` seams |
| Carver.Carve | seamstress/carver.py:30-36 | the working copy after deleting the seams fails iff a deletion meets no rows or one column; otherwise it has the image's rows and `width - |seams|` columns |
| Carver.CarveOneMore | seamstress/carver.py:36 | deleting one more seam from the working copy is the working copy of the longer seam list |
| Carver.CarveRows | seamstress/carver.py:32-36 | row `y` of the working copy is row `y` of the image with the seams' cells deleted one after another |
| Carver.EnergyIsGrid | seamstress/carver.py:93-94 | the energy of a rectangular image is a grid of the same shape |
| Carver.AsWrittenSeamFits | seamstress/carver.py:33-34 | the seam the backtrack as written returns for the working copy fits as the next stored seam, so the mask, `shrink` and `color` accept the source's seams |
| Carver.PrefixFits | seamstress/carver.py:32-34 | prefixes of the stored seams fit the image |
| Carver.FoundSeamIsCheapest | seamstress/carver.py:32-36 | stored seam `i` is the seam the finder returns for the image with seams `0 .. i - 1` deleted |
| Carver.FoundSeamIsOptimal | seamstress/carver.py:32-36 | no seam of that narrowed image has less energy than stored seam `i` |
| Carver.FoundOneMore | seamstress/carver.py:33-34 | appending the cheapest seam of the current working copy keeps every stored seam found that way |
| Carver.SeamFits | seamstress/carver.py:33-34 | a column path of the working copy, connected or not, fits as the next stored seam |
| Carver.SearchStep | seamstress/carver.py:33-36 | one loop step keeps the loop state: stored seams fit, each is found, and the working copy is their deletion from the image |
| Carver.NextSeam | seamstress/carver.py:33-36 | one loop step fails in the finder iff no rows or no columns remain and in the deletion iff one column remains; otherwise it keeps the loop state |
| Carver.SearchSeams | seamstress/carver.py:30-36 | the loop succeeds iff `count <= 0` or the image has rows and more than `count` columns; on failure it stops with 0 seams (no rows or no columns) or `width` seams |
| Carver.SeamMask | seamstress/carver.py:45-56 | the mask row for the stored seams is as wide as the image |
| Carver.OriginalColumn | seamstress/carver.py:51-55 | the inner `j` loop computes the corrected column `Recover(layer, i)` |
| Carver.MarkLayer | seamstress/carver.py:51-56 | the `i` loop turns row `y` of the mask into `MaskRow` for all the layer's seams, and changes no other row |
| Carver.ArrayRow | seamstress/carver.py:65 | row `y` of the mask array read as a sequence, cell for cell |
| Carver.SeamCarver.constructor | seamstress/carver.py:13-22 | the new carver holds the image and its dimensions, with no seams |
| Carver.SeamCarver.FindSeams | seamstress/carver.py:24-37 | success iff `count <= 0` or `height > 0 && count < width`; the first failure's error and the number of seams left stored; each stored seam is the cheapest seam of the image with the earlier ones deleted |
| Carver.SeamCarver.CreateMask | seamstress/carver.py:39-57 | a fresh `height` by `width` mask equal, row by row, to `MaskRow` of the stored seams' layer |
| Carver.SeamCarver.Shrink | seamstress/carver.py:59-67 | fails iff the image has no rows or every column is a seam's; otherwise it equals the working copy `find_seams` ended with |
| Carver.SeamCarver.Color | seamstress/carver.py:76-84 | a fresh copy of the image with exactly the cells of the inverted mask painted `rgb` |

## Left out

- `seamstress/energy.py` (the gradient magnitude) and the channel mean at
  carver.py:93 are not part of this model. `FindSeams` takes the energy as a
  parameter `energyOf`, a function from an image to a grid of naturals of
  the same shape (`KeepsShape`).
  - Floating-point energies and costs are modelled as naturals. This keeps
    the comparisons exact, so the argmin tie-break is exact as well.
- The logging call at carver.py:35 is left out (I/O).
- `grow` (carver.py:69-74) returns `NotImplemented` and has no behaviour to
  model.
- `find_seams` returns `self`, and numpy raises exceptions. The model
  returns a `Status` instead: `Failed(error)` stands for the exception that
  ended the call.
- The `is_altered` field (carver.py:22) is never read and is left out.
- The `rgb` default of `color` (carver.py:76) is left out. Pixels are an
  opaque type, so `Color` takes the colour explicitly. The channel axis of
  the numpy image is part of the pixel, and so is the trailing `-1` of the
  reshapes.
- DeleteSeam: requires every seam column to lie inside the image. numpy
  raises `IndexError` at carver.py:128 for a column past the edge and wraps
  negative columns, and neither is modelled. The only caller passes a seam
  of the working copy.
- DeleteSeam, Shrink: the flat selection `image[mask]` followed by
  `reshape` is modelled row by row.
  - This matches the source because every mask row keeps the same number of
    cells: `w - 1` by SelectSeamMaskRow, and `w - |seams|` by MaskRowKept.
  - The flattening itself is not modelled.
- DeleteSeam: the index `mask[[range(len(seam)), seam]]` is read as the
  tuple `(rows, columns)`, as older numpy reads it. From numpy 1.23 the list
  is turned into one array that indexes rows only, and the model does not
  follow that reading. Under it:
  - `delete_seam` raises `IndexError` when some seam column is at least the
    height;
  - otherwise every row of the mask is cleared, and the reshape at
    carver.py:129 raises only when the width is 1;
  - in every other case it returns an image without pixel channels.
- SeamCarver.constructor: `__init__` stores the caller's array without a
  copy (carver.py:19). Later in-place edits by the caller would change what
  `find_seams`, `shrink` and `color` see. The model's `image` is an
  immutable sequence, so it does not capture this aliasing.
- The constructor takes the width next to the rows. With zero rows,
  numpy's `image.shape[1]` is not recoverable from a list of rows.
- CheapestVerticalSeam, FindSeams, Shrink, Color: these use the corrected
  backtrack from Findings, which reads `pred[y + 1, column]`. The source
  reads `seams[y, crumb]`, so each seam it stores for an image of two or
  more rows starts at column 0 and may be disconnected. Its working copies,
  masks, `shrink` output and `color` output differ accordingly. On
  `[[1,1,0],[1,1,0]]` the source stores `[0, 2]` and the model stores
  `[2, 2]`. The source's seams are modelled by SeamAsWritten.
  - CreateMask, Shrink and Color rely only on `SeamsFit`. The as-written
    seams meet it (AsWrittenSeamFits), so `Shrink == Carve` holds for them
    too.

## Findings

| source | as written | input that shows it | evidently intended | confidence | as-written member | corrected member |
|---|---|---|---|---|---|---|
| seamstress/carver.py:112 | the backtrack reads `seams[y, crumb]`, the predecessor table of the row being added, so every seam of two or more rows ends on row 0's zeros and starts at column 0 | energy `[[1,1,0],[1,1,0]]`: the source returns `[0, 2]`, which is not connected and costs 1 | read `seams[y + 1, crumb]`, the predecessor of the row below, giving the connected seam `[2, 2]` of cost 0 | high; not executed | SeamFinder.AsWrittenCounterexample | SeamFinder.AsWrittenIsNotCheapest |
