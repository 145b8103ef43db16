/** How `_create_mask` finds, in the original image, the cell each stored
    seam took out. Seam `i` was found on the image with seams `0 .. i - 1`
    already deleted, so its column in row `y` is a column of that narrower
    row. The list of the stored seams' columns in one row is a *layer*
    (one tuple of `zip(*seams)`); walking the earlier seams of the layer from
    the latest back to the first and adding one for each that sat at or left
    of the running column lifts the column back to the original row. */
module CoordinateMapper {
  import opened Masks
  import opened SeamRemover

  /** Seam `i` of the layer is a column of a row of width `w - i`: the row it
      was found in. */
  predicate InFrames(layer: seq<nat>, w: nat) {
    forall i | 0 <= i < |layer| :: layer[i] + i < w
  }

  /** Column `x` of the row narrowed by seams `0 .. hi - 1`, lifted through
      seams `hi - 1` down to `lo` to a column of the row narrowed by seams
      `0 .. lo - 1`. */
  function Lift(layer: seq<nat>, lo: nat, hi: nat, x: nat): (r: nat)
    requires lo <= hi <= |layer|
    ensures x <= r <= x + (hi - lo)
    decreases hi - lo
  {
    if lo == hi then x else Bump(layer[lo], Lift(layer, lo + 1, hi, x))
  }

  /** The original column of seam `i`'s cell. */
  function Recover(layer: seq<nat>, i: nat): (r: nat)
    requires i < |layer|
    ensures layer[i] <= r <= layer[i] + i
  {
    Lift(layer, 0, i, layer[i])
  }

  /** Lifting a column of a row of width `w - hi` gives a column of a row of
      width `w - lo`. */
  lemma {:induction false} LiftInRange(layer: seq<nat>, lo: nat, hi: nat, x: nat, w: nat)
    requires lo <= hi <= |layer| && x + hi < w
    ensures Lift(layer, lo, hi, x) + lo < w
    decreases hi - lo
  {
    if lo < hi {
      LiftInRange(layer, lo + 1, hi, x, w);
    }
  }

  /** Every seam's cell lifts to a column of the original row. */
  lemma RecoverInRange(layer: seq<nat>, w: nat, i: nat)
    requires InFrames(layer, w) && i < |layer|
    ensures Recover(layer, i) < w
  {
    LiftInRange(layer, 0, i, layer[i], w);
  }

  /** Lifting through one more seam is bumping past it first. */
  lemma {:induction false} LiftOneMore(layer: seq<nat>, lo: nat, hi: nat, x: nat)
    requires lo <= hi < |layer|
    ensures Lift(layer, lo, hi + 1, x) == Lift(layer, lo, hi, Bump(layer[hi], x))
    decreases hi - lo
  {
    if lo < hi {
      LiftOneMore(layer, lo + 1, hi, x);
    }
  }

  /** The row after deleting the first `k` seams of the layer one by one, as
      `find_seams` does to its working copy. */
  function Narrowed<P>(row: seq<P>, layer: seq<nat>, k: nat): (r: seq<P>)
    requires k <= |layer| && InFrames(layer, |row|)
    ensures |r| + k == |row|
  {
    if k == 0 then row else RemoveAt(Narrowed(row, layer, k - 1), layer[k - 1])
  }

  /** Narrowing by `k` seams reads only the first `k` entries of the layer. */
  lemma {:induction false} NarrowedPrefix<P>(row: seq<P>, layer: seq<nat>, other: seq<nat>, k: nat)
    requires k <= |layer| && k <= |other| && layer[..k] == other[..k]
    requires InFrames(layer, |row|) && InFrames(other, |row|)
    ensures Narrowed(row, layer, k) == Narrowed(row, other, k)
  {
    if k > 0 {
      assert layer[..k - 1] == other[..k - 1] && layer[k - 1] == other[k - 1] by {
        assert layer[..k - 1] == layer[..k][..k - 1] && other[..k - 1] == other[..k][..k - 1];
        assert layer[..k][k - 1] == other[..k][k - 1];
      }
      NarrowedPrefix(row, layer, other, k - 1);
    }
  }

  /** Cell `x` of the narrowed row is the original cell its column lifts to. */
  lemma {:induction false} NarrowedAt<P>(row: seq<P>, layer: seq<nat>, k: nat, x: nat)
    requires k <= |layer| && InFrames(layer, |row|) && x + k < |row|
    ensures Lift(layer, 0, k, x) < |row|
    ensures Narrowed(row, layer, k)[x] == row[Lift(layer, 0, k, x)]
  {
    LiftInRange(layer, 0, k, x, |row|);
    if k > 0 {
      var d := layer[k - 1];
      NarrowedAt(row, layer, k - 1, Bump(d, x));
      LiftOneMore(layer, 0, k - 1, x);
    }
  }

  /** The mask row `_create_mask` builds for a layer on a row of width `w`
      after handling the first `k` seams: it starts as all `!inverted` and
      each seam writes `inverted` into its original column. */
  function MaskRow(layer: seq<nat>, w: nat, k: nat, inverted: bool): (m: seq<bool>)
    requires k <= |layer| && InFrames(layer, w)
    ensures |m| == w
  {
    if k == 0 then seq(w, _ => !inverted)
    else
      RecoverInRange(layer, w, k - 1);
      MaskRow(layer, w, k - 1, inverted)[Recover(layer, k - 1) := inverted]
  }

  /** The mask holds `inverted` exactly in the original columns of the first
      `k` seams. */
  lemma {:induction false} MaskRowMarks(layer: seq<nat>, w: nat, k: nat, inverted: bool, x: nat)
    requires k <= |layer| && InFrames(layer, w) && x < w
    ensures MaskRow(layer, w, k, inverted)[x] == inverted <==> exists i | 0 <= i < k :: Recover(layer, i) == x
  {
    if k > 0 {
      MaskRowMarks(layer, w, k - 1, inverted, x);
      if Recover(layer, k - 1) != x {
        assert forall i | 0 <= i < k :: Recover(layer, i) == x ==> i < k - 1;
      }
    }
  }

  /** The plain mask keeps `w - k` cells of the row, and its `x`-th kept
      column is column `x` of the narrowed row lifted to the original row. */
  lemma {:induction false} MaskRowKept(layer: seq<nat>, w: nat, k: nat)
    requires k <= |layer| && InFrames(layer, w)
    ensures CountTrue(MaskRow(layer, w, k, false)) == w - k
    ensures forall x | 0 <= x < w - k :: Kept(MaskRow(layer, w, k, false), x) == Lift(layer, 0, k, x)
    decreases k, 1
  {
    var full := seq(w, _ => true);
    if k == 0 {
      assert MaskRow(layer, w, 0, false) == full;
      AllCounted(full);
      forall x | 0 <= x < w
        ensures Kept(full, x) == x
      {
        AllKept(full, x);
      }
    } else {
      MaskRowKeptStep(layer, w, k);
    }
  }

  /** The step of MaskRowKept from `k - 1` seams to `k`: seam `k - 1`'s
      column is the `layer[k - 1]`-th kept column of the mask before it. */
  lemma {:induction false} MaskRowKeptStep(layer: seq<nat>, w: nat, k: nat)
    requires 0 < k <= |layer| && InFrames(layer, w)
    ensures CountTrue(MaskRow(layer, w, k, false)) == w - k
    ensures forall x | 0 <= x < w - k :: Kept(MaskRow(layer, w, k, false), x) == Lift(layer, 0, k, x)
    decreases k, 0
  {
    var before := MaskRow(layer, w, k - 1, false);
    var d := layer[k - 1];
    MaskRowKept(layer, w, k - 1);
    assert MaskRow(layer, w, k, false) == Clear(before, d) by {
      assert Kept(before, d) == Recover(layer, k - 1);
      ClearIsUpdate(before, d);
    }
    forall x | 0 <= x < w - k
      ensures Kept(Clear(before, d), x) == Lift(layer, 0, k, x)
    {
      ClearKept(before, d, x);
      LiftOneMore(layer, 0, k - 1, x);
    }
  }

  /** Selecting with the plain mask is deleting the seams one after another:
      the row `shrink` builds is the row `find_seams` ended with. */
  lemma SelectMaskRowIsNarrowed<P>(row: seq<P>, layer: seq<nat>, k: nat)
    requires k <= |layer| && InFrames(layer, |row|)
    ensures Select(row, MaskRow(layer, |row|, k, false)) == Narrowed(row, layer, k)
  {
    var mask := MaskRow(layer, |row|, k, false);
    MaskRowKept(layer, |row|, k);
    forall x | 0 <= x < |row| - k
      ensures Select(row, mask)[x] == Narrowed(row, layer, k)[x]
    {
      SelectAt(row, mask, x);
      NarrowedAt(row, layer, k, x);
    }
  }

  /** Distinct seams take out distinct original cells, so the plain mask
      clears exactly `k` cells of the row. */
  lemma RecoverDistinct(layer: seq<nat>, w: nat, i: nat, j: nat)
    requires InFrames(layer, w) && i < j < |layer|
    ensures Recover(layer, i) != Recover(layer, j)
  {
    var before := MaskRow(layer, w, j, false);
    MaskRowKept(layer, w, j);
    RecoverInRange(layer, w, i);
    MaskRowMarks(layer, w, j, false, Recover(layer, i));
    assert Kept(before, layer[j]) == Recover(layer, j);
  }

  /** The inverted mask is the plain mask negated. */
  lemma {:induction false} MaskRowInverted(layer: seq<nat>, w: nat, k: nat, x: nat)
    requires k <= |layer| && InFrames(layer, w) && x < w
    ensures MaskRow(layer, w, k, true)[x] == !MaskRow(layer, w, k, false)[x]
  {
    MaskRowMarks(layer, w, k, true, x);
    MaskRowMarks(layer, w, k, false, x);
  }

  /** With a single seam no column needs lifting: the mask holds `inverted`
      in the seam's own column and nowhere else. */
  lemma OneSeamMask(layer: seq<nat>, w: nat, inverted: bool)
    requires 0 < |layer| && InFrames(layer, w)
    ensures MaskRow(layer, w, 1, inverted) == seq(w, x => if x == layer[0] then inverted else !inverted)
  {
    assert Recover(layer, 0) == layer[0];
  }

  /** The inverted mask holds `true` in exactly `k` cells: one per seam. */
  lemma InvertedMaskCount(layer: seq<nat>, w: nat, k: nat)
    requires k <= |layer| && InFrames(layer, w)
    ensures CountTrue(MaskRow(layer, w, k, true)) == k
  {
    var plain, inverted := MaskRow(layer, w, k, false), MaskRow(layer, w, k, true);
    forall x | 0 <= x < w
      ensures inverted[x] == !plain[x]
    {
      MaskRowInverted(layer, w, k, x);
    }
    MaskRowKept(layer, w, k);
    CountComplement(inverted, plain);
  }
}
