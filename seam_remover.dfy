/** `delete_seam`: the image without the cells of one vertical seam, computed
    as the selection of a mask that is false exactly on the seam and then
    reshaped to one column fewer. */
module SeamRemover {
  import opened Grids
  import opened Masks

  /** `row` without its cell `x`. */
  function RemoveAt<P>(row: seq<P>, x: nat): (r: seq<P>)
    requires x < |row|
    ensures |r| == |row| - 1
    ensures forall i | 0 <= i < |r| :: r[i] == row[Bump(x, i)]
  {
    row[..x] + row[x + 1..]
  }

  /** Removing a cell loses that cell and no other. */
  lemma RemoveAtMultiset<P>(row: seq<P>, x: nat)
    requires x < |row|
    ensures multiset(RemoveAt(row, x)) + multiset{row[x]} == multiset(row)
  {
    assert row == row[..x] + [row[x]] + row[x + 1..];
  }

  /** Removing the `c`-th selected cell is selecting with the `c`-th kept
      column cleared. */
  lemma RemoveSelected<P>(row: seq<P>, keep: seq<bool>, c: nat)
    requires |row| == |keep| && c < CountTrue(keep)
    ensures RemoveAt(Select(row, keep), c) == Select(row, Clear(keep, c))
  {
    var lhs, rhs := RemoveAt(Select(row, keep), c), Select(row, Clear(keep, c));
    forall i | 0 <= i < |lhs|
      ensures lhs[i] == rhs[i]
    {
      SelectAt(row, keep, Bump(c, i));
      SelectAt(row, Clear(keep, c), i);
      ClearKept(keep, c, i);
    }
  }

  /** Row `y`'s part of the mask `delete_seam` builds: every cell but the
      seam's cell `x` is kept. */
  function SeamMaskRow(w: nat, x: nat): (m: seq<bool>)
    ensures |m| == w
    ensures x < w ==> CountTrue(m) + 1 == w
  {
    var keep := seq(w, i => i != x);
    if x < w then
      var all := seq(w, _ => true);
      AllKept(all, x);
      ClearIsUpdate(all, x);
      assert Clear(all, x) == keep;
      keep
    else keep
  }

  /** Selecting with that mask row removes exactly the seam's cell. */
  lemma SelectSeamMaskRow<P>(row: seq<P>, x: nat)
    requires x < |row|
    ensures Select(row, SeamMaskRow(|row|, x)) == RemoveAt(row, x)
  {
    var all := seq(|row|, _ => true);
    AllKept(all, x);
    ClearIsUpdate(all, x);
    assert Clear(all, x) == SeamMaskRow(|row|, x);
    SelectAll(row, all);
    RemoveSelected(row, all, x);
  }

  /** The image of width `w` without the seam's cell in each row. The reshape
      of the selection to `height` rows of `w - 1` columns fails when the
      selection is empty (no rows, or a single column). */
  function DeleteSeam<P>(image: seq<seq<P>>, w: nat, seam: seq<nat>): (r: Result<seq<seq<P>>>)
    requires IsRect(image, w) && |seam| == |image|
    requires forall y | 0 <= y < |seam| :: seam[y] < w
    ensures r.Err? <==> |image| == 0 || w <= 1
    ensures r.Err? ==> r.error == EmptyReshape
    ensures r.Ok? ==> |r.value| == |image| && IsRect(r.value, w - 1)
    ensures r.Ok? ==> forall y, x | 0 <= y < |image| && 0 <= x < w - 1 :: r.value[y][x] == image[y][Bump(seam[y], x)]
  {
    if |image| == 0 || w <= 1 then Err(EmptyReshape)
    else
      var rows := seq(|image|, y requires 0 <= y < |image| => Select(image[y], SeamMaskRow(w, seam[y])));
      assert forall y | 0 <= y < |image| :: rows[y] == RemoveAt(image[y], seam[y]) by {
        forall y | 0 <= y < |image| {
          SelectSeamMaskRow(image[y], seam[y]);
        }
      }
      Ok(rows)
  }

  /** Each row of the result is the row without the seam's cell, and keeps
      every other cell of it. */
  lemma DeleteSeamRows<P>(image: seq<seq<P>>, w: nat, seam: seq<nat>, y: nat)
    requires IsRect(image, w) && |seam| == |image|
    requires forall i | 0 <= i < |seam| :: seam[i] < w
    requires y < |image| && w > 1
    ensures DeleteSeam(image, w, seam).value[y] == RemoveAt(image[y], seam[y])
    ensures multiset(DeleteSeam(image, w, seam).value[y]) + multiset{image[y][seam[y]]} == multiset(image[y])
  {
    SelectSeamMaskRow(image[y], seam[y]);
    RemoveAtMultiset(image[y], seam[y]);
  }
}
