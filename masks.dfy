/** Boolean masks over the rows of an image, and the selection `image[mask]`
    that keeps the cells whose mask entry is true, in row-major order. A mask
    row is a `seq<bool>` as wide as the image row it selects from. */
module Masks {

  /** Number of cells a mask row keeps. */
  function CountTrue(keep: seq<bool>): (n: nat)
    ensures n <= |keep|
  {
    if |keep| == 0 then 0 else (if keep[0] then 1 else 0) + CountTrue(keep[1..])
  }

  /** The cells of `row` whose mask entry is true, left to right. */
  function Select<P>(row: seq<P>, keep: seq<bool>): (r: seq<P>)
    requires |row| == |keep|
    ensures |r| == CountTrue(keep)
  {
    if |row| == 0 then [] else (if keep[0] then [row[0]] else []) + Select(row[1..], keep[1..])
  }

  /** Column of the `c`-th kept cell, counting from 0 (KeptCountsBefore
      says what that means). */
  function Kept(keep: seq<bool>, c: nat): (i: nat)
    requires c < CountTrue(keep)
    ensures i < |keep| && keep[i]
  {
    if keep[0] && c == 0 then 0 else Kept(keep[1..], if keep[0] then c - 1 else c) + 1
  }

  /** The `c`-th kept column has exactly `c` kept columns to its left. */
  lemma {:induction false} KeptCountsBefore(keep: seq<bool>, c: nat)
    requires c < CountTrue(keep)
    ensures CountTrue(keep[..Kept(keep, c)]) == c
  {
    var i := Kept(keep, c);
    if keep[0] && c == 0 {
      assert keep[..i] == [];
    } else {
      KeptCountsBefore(keep[1..], if keep[0] then c - 1 else c);
      assert keep[..i][1..] == keep[1..][..i - 1];
    }
  }

  /** The `c`-th selected cell is the cell in the `c`-th kept column. */
  lemma {:induction false} SelectAt<P>(row: seq<P>, keep: seq<bool>, c: nat)
    requires |row| == |keep| && c < CountTrue(keep)
    ensures Select(row, keep)[c] == row[Kept(keep, c)]
  {
    if !(keep[0] && c == 0) {
      SelectAt(row[1..], keep[1..], if keep[0] then c - 1 else c);
    }
  }

  /** A mask that keeps every cell selects the whole row. */
  lemma {:induction false} SelectAll<P>(row: seq<P>, keep: seq<bool>)
    requires |row| == |keep| && forall x | 0 <= x < |keep| :: keep[x]
    ensures Select(row, keep) == row
  {
    if |row| > 0 {
      SelectAll(row[1..], keep[1..]);
    }
  }

  /** The mask row with its `d`-th kept column cleared. */
  function Clear(keep: seq<bool>, d: nat): (r: seq<bool>)
    requires d < CountTrue(keep)
    ensures |r| == |keep| && CountTrue(r) + 1 == CountTrue(keep)
  {
    var rest := keep[1..];
    var r := if keep[0] && d == 0 then [false] + rest else [keep[0]] + Clear(rest, if keep[0] then d - 1 else d);
    assert r[1..] == if keep[0] && d == 0 then rest else Clear(rest, if keep[0] then d - 1 else d);
    r
  }

  /** Clearing the `d`-th kept column sets exactly that column to false. */
  lemma {:induction false} ClearIsUpdate(keep: seq<bool>, d: nat)
    requires d < CountTrue(keep)
    ensures Clear(keep, d) == keep[Kept(keep, d) := false]
  {
    if !(keep[0] && d == 0) {
      ClearIsUpdate(keep[1..], if keep[0] then d - 1 else d);
    }
  }

  /** Where cell `x` of a row narrowed by removing cell `c` sits in the row
      before the removal. */
  function Bump(c: nat, x: nat): (r: nat)
    ensures r != c && x <= r <= x + 1
    ensures r < c <==> x < c
  {
    if c <= x then x + 1 else x
  }

  /** After clearing the `d`-th kept column, the kept columns from the `d`-th
      on move down one place in the count. */
  lemma {:induction false} ClearKept(keep: seq<bool>, d: nat, c: nat)
    requires d < CountTrue(keep) && c + 1 < CountTrue(keep)
    ensures Kept(Clear(keep, d), c) == Kept(keep, Bump(d, c))
    decreases |keep|, 1
  {
    var cleared := Clear(keep, d);
    if keep[0] && d == 0 {
      assert !cleared[0] && cleared[1..] == keep[1..];
      assert Bump(d, c) == c + 1;
    } else if keep[0] && c == 0 {
      assert cleared[0] && Bump(d, c) == 0;
    } else {
      ClearKeptPastFirst(keep, d, c);
    }
  }

  /** ClearKept when neither the cleared column nor column `c` is the first
      kept one: the claim for the rest of the row, shifted by one. */
  lemma {:induction false} ClearKeptPastFirst(keep: seq<bool>, d: nat, c: nat)
    requires d < CountTrue(keep) && c + 1 < CountTrue(keep)
    requires keep[0] ==> d > 0 && c > 0
    ensures Kept(Clear(keep, d), c) == Kept(keep, Bump(d, c))
    decreases |keep|, 0
  {
    var rest := keep[1..];
    var d', c' := if keep[0] then d - 1 else d, if keep[0] then c - 1 else c;
    ClearTail(keep, d);
    KeptTail(Clear(keep, d), c);
    ClearKept(rest, d', c');
    assert Bump(d, c) == Bump(d', c') + (if keep[0] then 1 else 0);
    KeptTail(keep, Bump(d, c));
  }

  /** Past a first column it does not clear, Clear works on the rest of the
      row. */
  lemma ClearTail(keep: seq<bool>, d: nat)
    requires d < CountTrue(keep) && !(keep[0] && d == 0)
    ensures var d' := if keep[0] then d - 1 else d;
      d' < CountTrue(keep[1..]) && Clear(keep, d)[0] == keep[0] && Clear(keep, d)[1..] == Clear(keep[1..], d')
  {
  }

  /** Past a first column that is not the one sought, Kept counts in the
      rest of the row. */
  lemma KeptTail(keep: seq<bool>, c: nat)
    requires c < CountTrue(keep) && !(keep[0] && c == 0)
    ensures var c' := if keep[0] then c - 1 else c;
      c' < CountTrue(keep[1..]) && Kept(keep, c) == Kept(keep[1..], c') + 1
  {
  }

  /** A mask row that keeps every cell keeps them all, each in its own place. */
  lemma {:induction false} AllKept(keep: seq<bool>, c: nat)
    requires forall x | 0 <= x < |keep| :: keep[x]
    requires c < |keep|
    ensures CountTrue(keep) == |keep| && Kept(keep, c) == c
  {
    AllCounted(keep);
    if c > 0 {
      AllKept(keep[1..], c - 1);
    }
  }

  /** A mask row that keeps every cell keeps `|keep|` of them. */
  lemma {:induction false} AllCounted(keep: seq<bool>)
    requires forall x | 0 <= x < |keep| :: keep[x]
    ensures CountTrue(keep) == |keep|
  {
    if |keep| > 0 {
      AllCounted(keep[1..]);
    }
  }

  /** A mask row and its negation keep every cell between them once. */
  lemma {:induction false} CountComplement(a: seq<bool>, b: seq<bool>)
    requires |a| == |b| && forall x | 0 <= x < |a| :: a[x] == !b[x]
    ensures CountTrue(a) + CountTrue(b) == |a|
  {
    if |a| > 0 {
      CountComplement(a[1..], b[1..]);
    }
  }
}
