/** The dynamic program that finds the cheapest connected top-to-bottom
    path through an energy grid (`cheapest_vertical_seam`).  Energy is an
    abstract grid of naturals.

    The cost and predecessor tables the program fills are described by the
    recurrence they satisfy (`Recurrence`); `AllTables` computes them row by
    row, and `RecurrenceUnique` shows that the recurrence pins them down, so
    every fact about paths is proved once, against the recurrence. */
module SeamFinder {
  import opened Grids

  // ---------------------------------------------------------------------
  // Seams

  /** Columns of neighbouring rows differ by at most one. */
  predicate Adjacent(a: nat, b: nat) {
    a <= b + 1 && b <= a + 1
  }

  /** `p` is a connected column path inside a grid of width `w`. */
  predicate ConnectedPath(p: seq<nat>, w: nat) {
    && (forall y | 0 <= y < |p| :: p[y] < w)
    && (forall y, z | 0 <= y < |p| && z == y + 1 < |p| :: Adjacent(p[y], p[z]))
  }

  /** `s` is a seam of an `h` by `w` grid: one column per row, connected. */
  predicate IsSeam(s: seq<nat>, h: nat, w: nat) {
    |s| == h && ConnectedPath(s, w)
  }

  /** Total energy along the path `p`, whose entry `i` is a column of row `i`. */
  function PathEnergy(e: seq<seq<nat>>, p: seq<nat>): nat
    requires |p| <= |e|
    requires forall i | 0 <= i < |p| :: p[i] < |e[i]|
  {
    if |p| == 0 then 0 else PathEnergy(e, p[..|p| - 1]) + e[|p| - 1][p[|p| - 1]]
  }

  // ---------------------------------------------------------------------
  // Choosing a predecessor

  /** Index of the first smallest element, the index numpy's argmin picks
      (ArgMinIsFirstMinimum states what that means). */
  function ArgMin(s: seq<nat>): (r: nat)
    requires |s| > 0
    ensures r < |s|
  {
    if |s| == 1 then 0
    else
      var k := ArgMin(s[1..]);
      if s[0] <= s[1 + k] then 0 else 1 + k
  }

  /** No element is smaller than the chosen one, and every element before it
      is strictly larger. */
  lemma {:induction false} ArgMinIsFirstMinimum(s: seq<nat>)
    requires |s| > 0
    ensures forall j | 0 <= j < |s| :: s[ArgMin(s)] <= s[j]
    ensures forall j | 0 <= j < ArgMin(s) :: s[ArgMin(s)] < s[j]
  {
    if |s| > 1 {
      ArgMinIsFirstMinimum(s[1..]);
    }
  }

  /** First column of the window of upper neighbours of column `x`. */
  function WindowStart(x: nat): (s: nat)
    ensures s <= x <= s + 1
    ensures s == x <==> x == 0
  {
    if x > 0 then x - 1 else 0
  }

  /** One past the last column of that window in a row of width `w`. */
  function WindowEnd(x: nat, w: nat): (r: nat)
    ensures x < r <= x + 2
    ensures r == x + 2 <==> x + 1 < w
    ensures x < w ==> r <= w
  {
    if x < w - 1 then x + 2 else x + 1
  }

  /** `r` is the leftmost cheapest column of the clamped window `x-1 .. x+1`
      of the cost row `prev`. */
  predicate IsFirstCheapest(prev: seq<nat>, x: nat, r: nat)
    requires x < |prev|
  {
    && WindowStart(x) <= r < WindowEnd(x, |prev|)
    && (forall j | WindowStart(x) <= j < WindowEnd(x, |prev|) :: prev[r] <= prev[j])
    && (forall j | WindowStart(x) <= j < r :: prev[r] < prev[j])
  }

  /** The predecessor the program picks for column `x`: the argmin of the
      window slice, shifted back to a column of the whole row. */
  function Pick(prev: seq<nat>, x: nat): (r: nat)
    requires x < |prev|
    ensures IsFirstCheapest(prev, x, r)
    ensures Adjacent(r, x)
  {
    var lo, hi := WindowStart(x), WindowEnd(x, |prev|);
    var w := prev[lo..hi];
    ArgMinIsFirstMinimum(w);
    assert forall j | lo <= j < hi :: prev[j] == w[j - lo];
    lo + ArgMin(w)
  }

  /** Only one column of a window is its leftmost cheapest one. */
  lemma FirstCheapestUnique(prev: seq<nat>, x: nat, r1: nat, r2: nat)
    requires x < |prev| && IsFirstCheapest(prev, x, r1) && IsFirstCheapest(prev, x, r2)
    ensures r1 == r2
  {
    assert prev[r1] == prev[r2];
  }

  // ---------------------------------------------------------------------
  // The tables

  /** A row of `n` zeros, as `np.zeros` allocates it. */
  function Zeros(n: nat): (r: seq<nat>)
    ensures |r| == n && forall i | 0 <= i < n :: r[i] == 0
  {
    seq(n, _ => 0)
  }

  /** Every predecessor entry names a column of a row of width `w`. */
  predicate PredInRange(pred: seq<seq<nat>>, w: nat) {
    forall y, x | 0 <= y < |pred| && 0 <= x < |pred[y]| :: pred[y][x] < w
  }

  /** `cur` and `choice` are the cost and predecessor rows that follow the
      cost row `prev` over the energy row `row`: every column takes the
      leftmost cheapest column of its window above and adds its own energy. */
  predicate RowRelaxed(prev: seq<nat>, row: seq<nat>, cur: seq<nat>, choice: seq<nat>) {
    && |prev| == |row| == |cur| == |choice|
    && forall x {:trigger choice[x]} {:trigger cur[x]} | 0 <= x < |row| ::
         IsFirstCheapest(prev, x, choice[x]) && cur[x] == prev[choice[x]] + row[x]
  }

  /** Row `y` of `cost` and `pred` follows from row `y - 1`. */
  predicate RowFollows(e: seq<seq<nat>>, cost: seq<seq<nat>>, pred: seq<seq<nat>>, y: nat)
    requires 0 < y < |cost| && |cost| <= |e| && |pred| == |cost|
  {
    RowRelaxed(cost[y - 1], e[y], cost[y], pred[y])
  }

  /** `cost` and `pred` are the first `|cost|` rows of the tables the program
      fills for `e`: row 0 of the costs is the energy and row 0 of the
      predecessors is zero; every later row follows from the one above. */
  predicate Recurrence(e: seq<seq<nat>>, cost: seq<seq<nat>>, pred: seq<seq<nat>>) {
    && IsGrid(e) && |e| > 0
    && |cost| <= |e| && |pred| == |cost|
    && IsRect(cost, |e[0]|) && IsRect(pred, |e[0]|) && PredInRange(pred, |e[0]|)
    && (|cost| > 0 ==> cost[0] == e[0] && pred[0] == Zeros(|e[0]|))
    && (forall y | 0 < y < |cost| :: RowFollows(e, cost, pred, y))
  }

  /** Cell `(y, x)` of tables that satisfy the recurrence: its predecessor is
      the leftmost cheapest column of its window in the row above, and its
      cost adds its energy to that column's cost. */
  lemma CellFollows(e: seq<seq<nat>>, cost: seq<seq<nat>>, pred: seq<seq<nat>>, y: nat, x: nat)
    requires Recurrence(e, cost, pred) && 0 < y < |cost| && x < |e[0]|
    ensures |cost[y - 1]| == |e[0]| && IsFirstCheapest(cost[y - 1], x, pred[y][x])
    ensures cost[y][x] == cost[y - 1][pred[y][x]] + e[y][x]
  {
    assert RowFollows(e, cost, pred, y);
  }

  /** The cost and predecessor tables. */
  datatype Tables = Tables(cost: seq<seq<nat>>, pred: seq<seq<nat>>)

  /** The rows that follow `prev` over the energy row `row`, one pick per
      column. */
  function Relax(prev: seq<nat>, row: seq<nat>): (r: (seq<nat>, seq<nat>))
    requires |prev| == |row|
    ensures RowRelaxed(prev, row, r.0, r.1)
  {
    var choice := seq(|row|, x requires 0 <= x < |row| => Pick(prev, x));
    (seq(|row|, x requires 0 <= x < |row| => prev[choice[x]] + row[x]), choice)
  }

  /** The first `n` rows of both tables. */
  function BuildTables(e: seq<seq<nat>>, n: nat): (t: Tables)
    requires IsGrid(e) && 0 < |e| && n <= |e|
    ensures |t.cost| == n && Recurrence(e, t.cost, t.pred)
  {
    if n == 0 then Tables([], [])
    else if n == 1 then Tables([e[0]], [Zeros(|e[0]|)])
    else
      var t := BuildTables(e, n - 1);
      var r := Relax(t.cost[n - 2], e[n - 1]);
      RecurrenceExtends(e, t.cost, t.pred, r.0, r.1);
      Tables(t.cost + [r.0], t.pred + [r.1])
  }

  /** A row that follows the last row of tables satisfying the recurrence
      extends them by one row. */
  lemma RecurrenceExtends(e: seq<seq<nat>>, cost: seq<seq<nat>>, pred: seq<seq<nat>>, cur: seq<nat>, choice: seq<nat>)
    requires Recurrence(e, cost, pred) && 0 < |cost| < |e|
    requires RowRelaxed(cost[|cost| - 1], e[|cost|], cur, choice)
    ensures Recurrence(e, cost + [cur], pred + [choice])
  {
    var n := |cost|;
    var c', p' := cost + [cur], pred + [choice];
    assert |cost[n - 1]| == |e[0]|;
    forall y | 0 <= y < |p'|
      ensures |c'[y]| == |e[0]| && |p'[y]| == |e[0]|
      ensures forall x | 0 <= x < |p'[y]| :: p'[y][x] < |e[0]|
    {
      if y == n {
        forall x | 0 <= x < |choice|
          ensures choice[x] < |e[0]|
        {
          assert IsFirstCheapest(cost[n - 1], x, choice[x]);
        }
      }
    }
    forall y | 0 < y < |c'|
      ensures RowFollows(e, c', p', y)
    {
      if y < n {
        assert c'[y - 1] == cost[y - 1] && c'[y] == cost[y] && p'[y] == pred[y];
        assert RowFollows(e, cost, pred, y);
      }
    }
  }

  /** The complete tables for `e`. */
  function AllTables(e: seq<seq<nat>>): (t: Tables)
    requires IsGrid(e) && |e| > 0
    ensures |t.cost| == |e| && Recurrence(e, t.cost, t.pred)
  {
    BuildTables(e, |e|)
  }

  /** Two tables that both satisfy the recurrence agree on every row they
      both have. */
  lemma {:induction false} RowsAgree(e: seq<seq<nat>>, c1: seq<seq<nat>>, p1: seq<seq<nat>>, c2: seq<seq<nat>>, p2: seq<seq<nat>>, y: nat)
    requires Recurrence(e, c1, p1) && Recurrence(e, c2, p2)
    requires y < |c1| && y < |c2|
    ensures c1[y] == c2[y] && p1[y] == p2[y]
  {
    if y > 0 {
      RowsAgree(e, c1, p1, c2, p2, y - 1);
      assert RowFollows(e, c1, p1, y) && RowFollows(e, c2, p2, y);
      forall x | 0 <= x < |e[y]|
        ensures p1[y][x] == p2[y][x] && c1[y][x] == c2[y][x]
      {
        FirstCheapestUnique(c1[y - 1], x, p1[y][x], p2[y][x]);
      }
    }
  }

  /** The recurrence determines the tables. */
  lemma RecurrenceUnique(e: seq<seq<nat>>, c1: seq<seq<nat>>, p1: seq<seq<nat>>, c2: seq<seq<nat>>, p2: seq<seq<nat>>)
    requires Recurrence(e, c1, p1) && Recurrence(e, c2, p2) && |c1| == |c2|
    ensures c1 == c2 && p1 == p2
  {
    forall y | 0 <= y < |c1|
      ensures c1[y] == c2[y] && p1[y] == p2[y]
    {
      RowsAgree(e, c1, p1, c2, p2, y);
    }
  }

  // ---------------------------------------------------------------------
  // Following predecessors

  /** The path of rows `0 .. y` that the predecessor table leads to from
      `(y, x)`, top row first. */
  function Trace(pred: seq<seq<nat>>, w: nat, y: nat, x: nat): (p: seq<nat>)
    requires IsRect(pred, w) && PredInRange(pred, w) && y < |pred| && x < w
    ensures |p| == y + 1 && p[y] == x
    ensures forall i | 0 <= i < |p| :: p[i] < w
  {
    if y == 0 then [x] else Trace(pred, w, y - 1, pred[y][x]) + [x]
  }

  /** The rows `0 .. k` of a traced path are the path traced from its entry
      in row `k`. */
  lemma {:induction false} TracePrefix(pred: seq<seq<nat>>, w: nat, y: nat, x: nat, k: nat)
    requires IsRect(pred, w) && PredInRange(pred, w) && y < |pred| && x < w && k <= y
    ensures Trace(pred, w, y, x)[..k + 1] == Trace(pred, w, k, Trace(pred, w, y, x)[k])
  {
    if k < y {
      var c := pred[y][x];
      TracePrefix(pred, w, y - 1, c, k);
      assert Trace(pred, w, y, x)[..k + 1] == Trace(pred, w, y - 1, c)[..k + 1];
    }
  }

  /** Entry `k` of a traced path is the predecessor recorded for entry `k + 1`. */
  lemma TraceStep(pred: seq<seq<nat>>, w: nat, y: nat, x: nat, k: nat)
    requires IsRect(pred, w) && PredInRange(pred, w) && y < |pred| && x < w && k < y
    ensures Trace(pred, w, y, x)[k] == pred[k + 1][Trace(pred, w, y, x)[k + 1]]
  {
    var t := Trace(pred, w, y, x);
    TracePrefix(pred, w, y, x, k + 1);
    assert t[..k + 2][k] == t[k];
  }

  /** A path traced through tables that satisfy the recurrence is connected. */
  lemma TraceConnected(e: seq<seq<nat>>, cost: seq<seq<nat>>, pred: seq<seq<nat>>, y: nat, x: nat)
    requires Recurrence(e, cost, pred) && y < |cost| && x < |e[0]|
    ensures ConnectedPath(Trace(pred, |e[0]|, y, x), |e[0]|)
  {
    var t := Trace(pred, |e[0]|, y, x);
    forall k, z | 0 <= k < |t| && z == k + 1 < |t|
      ensures Adjacent(t[k], t[z])
    {
      TraceStep(pred, |e[0]|, y, x, k);
      CellFollows(e, cost, pred, k + 1, t[z]);
    }
  }

  /** Following predecessors from `(y, x)` collects exactly `cost[y][x]`. */
  lemma {:induction false} TraceEnergy(e: seq<seq<nat>>, cost: seq<seq<nat>>, pred: seq<seq<nat>>, y: nat, x: nat)
    requires Recurrence(e, cost, pred) && y < |cost| && x < |e[0]|
    ensures PathEnergy(e, Trace(pred, |e[0]|, y, x)) == cost[y][x]
  {
    var p := Trace(pred, |e[0]|, y, x);
    if y == 0 {
      assert p[..0] == [];
    } else {
      var c := pred[y][x];
      var q := Trace(pred, |e[0]|, y - 1, c);
      assert p == q + [x];
      assert PathEnergy(e, q) == cost[y - 1][c] by {
        TraceEnergy(e, cost, pred, y - 1, c);
      }
      assert cost[y][x] == cost[y - 1][c] + e[y][x] by {
        CellFollows(e, cost, pred, y, x);
      }
      PathEnergyAppend(e, q, x);
    }
  }

  /** Extending a path by one row adds that row's cell. */
  lemma PathEnergyAppend(e: seq<seq<nat>>, q: seq<nat>, x: nat)
    requires |q| < |e| && x < |e[|q|]|
    requires forall i | 0 <= i < |q| :: q[i] < |e[i]|
    ensures PathEnergy(e, q + [x]) == PathEnergy(e, q) + e[|q|][x]
  {
    assert (q + [x])[..|q|] == q;
  }

  /** No connected path from row 0 to `(|p| - 1, p[|p| - 1])` is cheaper than
      the cost recorded for that cell. */
  lemma {:induction false} CostIsMinimal(e: seq<seq<nat>>, cost: seq<seq<nat>>, pred: seq<seq<nat>>, p: seq<nat>)
    requires Recurrence(e, cost, pred) && 0 < |p| <= |cost|
    requires ConnectedPath(p, |e[0]|)
    ensures cost[|p| - 1][p[|p| - 1]] <= PathEnergy(e, p)
  {
    var y := |p| - 1;
    if y == 0 {
      assert p[..0] == [];
    } else {
      var q := p[..y];
      assert q[y - 1] == p[y - 1];
      CostIsMinimal(e, cost, pred, q);
      assert Adjacent(p[y - 1], p[y]);
      CellFollows(e, cost, pred, y, p[y]);
    }
  }

  // ---------------------------------------------------------------------
  // The seam

  /** The seam the finder promises: it ends in the leftmost cheapest cell of
      the bottom cost row and follows predecessors up. */
  function CheapestSeam(e: seq<seq<nat>>): (r: Result<seq<nat>>)
    requires IsGrid(e)
    ensures r.Ok? <==> |e| > 0 && |e[0]| > 0
    ensures r.Err? ==> r.error == (if |e| == 0 then NoRows else NoColumns)
    ensures r.Ok? ==> IsSeam(r.value, |e|, |e[0]|)
  {
    if |e| == 0 then Err(NoRows)
    else if |e[0]| == 0 then Err(NoColumns)
    else
      var t := AllTables(e);
      var x := ArgMin(t.cost[|e| - 1]);
      TraceConnected(e, t.cost, t.pred, |e| - 1, x);
      Ok(Trace(t.pred, |e[0]|, |e| - 1, x))
  }

  /** The seam traced back from the leftmost cheapest bottom cell of tables
      that satisfy the recurrence is no dearer than any seam of the grid. */
  lemma TracedSeamIsOptimal(e: seq<seq<nat>>, cost: seq<seq<nat>>, pred: seq<seq<nat>>)
    requires Recurrence(e, cost, pred) && |cost| == |e| && |e[0]| > 0
    ensures forall t | IsSeam(t, |e|, |e[0]|) ::
      PathEnergy(e, Trace(pred, |e[0]|, |e| - 1, ArgMin(cost[|e| - 1]))) <= PathEnergy(e, t)
  {
    var h := |e|;
    var last := cost[h - 1];
    var x := ArgMin(last);
    ArgMinIsFirstMinimum(last);
    TraceEnergy(e, cost, pred, h - 1, x);
    forall t | IsSeam(t, h, |e[0]|)
      ensures last[x] <= PathEnergy(e, t)
    {
      CostIsMinimal(e, cost, pred, t);
    }
  }

  /** No seam of the grid is cheaper than the promised one. */
  lemma CheapestSeamIsOptimal(e: seq<seq<nat>>)
    requires IsGrid(e) && |e| > 0 && |e[0]| > 0
    ensures forall t | IsSeam(t, |e|, |e[0]|) :: PathEnergy(e, CheapestSeam(e).value) <= PathEnergy(e, t)
  {
    var tables := AllTables(e);
    TracedSeamIsOptimal(e, tables.cost, tables.pred);
  }

  /** The seam traced from the leftmost cheapest bottom cell collects that
      cell's cost, which no bottom cell undercuts and every cell to its left
      exceeds. */
  lemma TracedSeamEndsAtFirstMinimum(e: seq<seq<nat>>, cost: seq<seq<nat>>, pred: seq<seq<nat>>)
    requires Recurrence(e, cost, pred) && |cost| == |e| && |e[0]| > 0
    ensures var last := cost[|e| - 1]; var x := ArgMin(last);
      && PathEnergy(e, Trace(pred, |e[0]|, |e| - 1, x)) == last[x]
      && (forall c | 0 <= c < |e[0]| :: last[x] <= last[c])
      && (forall c | 0 <= c < x :: last[x] < last[c])
  {
    var last := cost[|e| - 1];
    var x := ArgMin(last);
    assert (forall c | 0 <= c < |last| :: last[x] <= last[c]) && (forall c | 0 <= c < x :: last[x] < last[c]) by {
      ArgMinIsFirstMinimum(last);
    }
    assert PathEnergy(e, Trace(pred, |e[0]|, |e| - 1, x)) == last[x] by {
      TraceEnergy(e, cost, pred, |e| - 1, x);
    }
  }

  /** The promised seam collects the cost of its bottom cell, and that cell is
      the leftmost cheapest of the bottom row (numpy's argmin tie-break). */
  lemma CheapestSeamEndsAtFirstMinimum(e: seq<seq<nat>>)
    requires IsGrid(e) && |e| > 0 && |e[0]| > 0
    ensures var s := CheapestSeam(e).value; var last := AllTables(e).cost[|e| - 1]; var x := s[|e| - 1];
      && PathEnergy(e, s) == last[x]
      && (forall c | 0 <= c < |e[0]| :: last[x] <= last[c])
      && (forall c | 0 <= c < x :: last[x] < last[c])
  {
    var tables := AllTables(e);
    TracedSeamEndsAtFirstMinimum(e, tables.cost, tables.pred);
  }

  // ---------------------------------------------------------------------
  // The finder

  /** The cells `a[y, lo .. hi]` of one table row. */
  function RowSlice(a: array2<nat>, y: nat, lo: nat, hi: nat): (r: seq<nat>)
    reads a
    requires y < a.Length0 && lo <= hi <= a.Length1
    ensures |r| == hi - lo && forall k | 0 <= k < hi - lo :: r[k] == a[y, lo + k]
  {
    seq(hi - lo, k requires 0 <= k < hi - lo reads a => a[y, lo + k])
  }

  /** The list `s` read back to front. */
  function Reverse(s: seq<nat>): (r: seq<nat>)
    ensures |r| == |s| && forall k | 0 <= k < |s| :: r[k] == s[|s| - 1 - k]
  {
    seq(|s|, k requires 0 <= k < |s| => s[|s| - 1 - k])
  }

  /** The predecessor the program picks for column `x` of row `y`: the argmin
      of the clamped window of row `y - 1` (whose contents are `prev`),
      shifted back to a column of the whole row. */
  method PickPredecessor(cost: array2<nat>, y: nat, x: nat, ghost prev: seq<nat>) returns (cheapest: nat)
    requires 0 < y < cost.Length0 && x < cost.Length1 == |prev|
    requires forall c | 0 <= c < |prev| :: cost[y - 1, c] == prev[c]
    ensures cheapest == Pick(prev, x)
  {
    var width := cost.Length1;
    var startShift := if x > 0 then -1 else 0;
    var stopShift := if x < width - 1 then 2 else 1;
    var lo, hi := x + startShift, x + stopShift;
    assert RowSlice(cost, y - 1, lo, hi) == prev[lo..hi];
    cheapest := lo + ArgMin(RowSlice(cost, y - 1, lo, hi));
  }

  /** Fills row `y` of both tables from row `y - 1` of the costs, column by
      column; `prev` is that cost row. */
  method FillRow(energy: seq<seq<nat>>, cost: array2<nat>, pred: array2<nat>, y: nat, ghost prev: seq<nat>)
    requires IsGrid(energy) && 0 < y < |energy| && cost != pred
    requires cost.Length0 == pred.Length0 == |energy| && cost.Length1 == pred.Length1 == |energy[0]| == |prev|
    requires forall c | 0 <= c < |prev| :: cost[y - 1, c] == prev[c]
    modifies cost, pred
    ensures forall c | 0 <= c < |prev| :: pred[y, c] == Pick(prev, c) && cost[y, c] == prev[pred[y, c]] + energy[y][c]
    ensures forall i, c | 0 <= i < |energy| && i != y && 0 <= c < |prev| :: cost[i, c] == old(cost[i, c]) && pred[i, c] == old(pred[i, c])
  {
    for x := 0 to cost.Length1
      invariant forall i, c | 0 <= i < |energy| && i != y && 0 <= c < |prev| :: cost[i, c] == old(cost[i, c]) && pred[i, c] == old(pred[i, c])
      invariant forall c | 0 <= c < x :: pred[y, c] == Pick(prev, c) && cost[y, c] == prev[pred[y, c]] + energy[y][c]
    {
      FillCell(energy, cost, pred, y, x, prev);
    }
  }

  /** Fills cell `(y, x)` of both tables from row `y - 1` of the costs. */
  method FillCell(energy: seq<seq<nat>>, cost: array2<nat>, pred: array2<nat>, y: nat, x: nat, ghost prev: seq<nat>)
    requires IsGrid(energy) && 0 < y < |energy| && cost != pred && x < |prev|
    requires cost.Length0 == pred.Length0 == |energy| && cost.Length1 == pred.Length1 == |energy[0]| == |prev|
    requires forall c | 0 <= c < |prev| :: cost[y - 1, c] == prev[c]
    modifies cost, pred
    ensures pred[y, x] == Pick(prev, x) && cost[y, x] == prev[pred[y, x]] + energy[y][x]
    ensures forall i, c | 0 <= i < |energy| && 0 <= c < |prev| && (i, c) != (y, x) :: cost[i, c] == old(cost[i, c]) && pred[i, c] == old(pred[i, c])
  {
    var cheapest := PickPredecessor(cost, y, x, prev);
    cost[y, x] := cost[y - 1, cheapest] + energy[y][x];
    pred[y, x] := cheapest;
  }

  /** Fills rows 1 onwards of both tables, row 0 being in place. */
  method FillRows(energy: seq<seq<nat>>, cost: array2<nat>, pred: array2<nat>)
    requires IsGrid(energy) && |energy| > 0 && cost != pred
    requires cost.Length0 == pred.Length0 == |energy| && cost.Length1 == pred.Length1 == |energy[0]|
    requires forall c | 0 <= c < |energy[0]| :: cost[0, c] == energy[0][c] && pred[0, c] == 0
    modifies cost, pred
    ensures var t := AllTables(energy);
      forall i, c | 0 <= i < |energy| && 0 <= c < |energy[0]| :: cost[i, c] == t.cost[i][c] && pred[i, c] == t.pred[i][c]
  {
    ghost var t := BuildTables(energy, 1);
    for y := 1 to |energy|
      invariant t == BuildTables(energy, y)
      invariant forall i, c | 0 <= i < y && 0 <= c < |energy[0]| :: cost[i, c] == t.cost[i][c] && pred[i, c] == t.pred[i][c]
    {
      FillRow(energy, cost, pred, y, t.cost[y - 1]);
      t := BuildTables(energy, y + 1);
    }
  }

  /** Allocates the cost and predecessor tables as numpy arrays of the shape
      of the energy grid, copies the top energy row into the costs and fills
      the rest row by row. */
  method FillTables(energy: seq<seq<nat>>) returns (cost: array2<nat>, pred: array2<nat>)
    requires IsGrid(energy) && |energy| > 0
    ensures fresh(cost) && fresh(pred)
    ensures cost.Length0 == pred.Length0 == |energy| && cost.Length1 == pred.Length1 == |energy[0]|
    ensures var t := AllTables(energy);
      forall i, c | 0 <= i < |energy| && 0 <= c < |energy[0]| :: cost[i, c] == t.cost[i][c] && pred[i, c] == t.pred[i][c]
  {
    var height, width := |energy|, |energy[0]|;
    pred := new nat[height, width]((_, _) => 0);
    cost := new nat[height, width]((_, _) => 0);
    for x := 0 to width
      invariant forall c | 0 <= c < x :: cost[0, c] == energy[0][c]
      invariant forall c | 0 <= c < width :: pred[0, c] == 0
    {
      cost[0, x] := energy[0][x];
    }
    FillRows(energy, cost, pred);
  }

  /** Walks the predecessor table `pred` (whose contents are `p`) back from
      column `crumb` of the bottom row: each step reads the predecessor of
      the current column in the row below the one being added. */
  method Backtrack(pred: array2<nat>, ghost p: seq<seq<nat>>, crumb: nat) returns (seam: seq<nat>)
    requires pred.Length0 == |p| > 0 && IsRect(p, pred.Length1) && PredInRange(p, pred.Length1) && crumb < pred.Length1
    requires forall i, c | 0 <= i < |p| && 0 <= c < pred.Length1 :: pred[i, c] == p[i][c]
    ensures seam == Trace(p, pred.Length1, |p| - 1, crumb)
  {
    ghost var trace := Trace(p, pred.Length1, |p| - 1, crumb);
    var height := pred.Length0;
    var column := crumb;
    var walk := [column];
    var y := height - 2;
    while y >= 0
      invariant -1 <= y <= height - 2
      invariant |walk| == height - 1 - y
      invariant forall k | 0 <= k < |walk| :: walk[k] == trace[height - 1 - k]
      invariant column == trace[y + 1]
    {
      TraceStep(p, pred.Length1, height - 1, crumb, y);
      column := pred[y + 1, column];
      walk := walk + [column];
      y := y - 1;
    }
    seam := Reverse(walk);
    assert seam == trace;
  }

  /** Fills the tables, then walks the predecessors back from the leftmost
      cheapest bottom cell. */
  method CheapestVerticalSeam(energy: seq<seq<nat>>) returns (r: Result<seq<nat>>)
    requires IsGrid(energy)
    ensures r == CheapestSeam(energy)
    ensures r.Ok? <==> |energy| > 0 && |energy[0]| > 0
    ensures r.Ok? ==> IsSeam(r.value, |energy|, |energy[0]|)
    ensures r.Ok? ==> forall t | IsSeam(t, |energy|, |energy[0]|) :: PathEnergy(energy, r.value) <= PathEnergy(energy, t)
  {
    if |energy| == 0 {
      return Err(NoRows);
    }
    var height, width := |energy|, |energy[0]|;
    var cost, pred := FillTables(energy);
    if width == 0 {
      return Err(NoColumns);
    }
    ghost var t := AllTables(energy);
    assert RowSlice(cost, height - 1, 0, width) == t.cost[height - 1];
    var crumb := ArgMin(RowSlice(cost, height - 1, 0, width));
    var seam := Backtrack(pred, t.pred, crumb);
    r := Ok(seam);
    CheapestSeamIsOptimal(energy);
  }

  // ---------------------------------------------------------------------
  // The backtrack as the source writes it

  /** The columns the source's backtrack collects for rows `y` down to 0,
      top row first, when it holds `crumb` on entering row `y`: it reads the
      predecessor table at row `y` itself rather than at row `y + 1`. */
  function WalkAsWritten(pred: seq<seq<nat>>, w: nat, y: nat, crumb: nat): (p: seq<nat>)
    requires IsRect(pred, w) && PredInRange(pred, w) && y < |pred| && crumb < w
    ensures |p| == y + 1
    ensures forall k | 0 <= k <= y :: p[k] < w
  {
    var next := pred[y][crumb];
    (if y == 0 then [] else WalkAsWritten(pred, w, y - 1, next)) + [next]
  }

  /** The seam the source returns: still one in-range column per row. */
  function SeamAsWritten(e: seq<seq<nat>>): (r: Result<seq<nat>>)
    requires IsGrid(e)
    ensures r.Ok? <==> |e| > 0 && |e[0]| > 0
    ensures r.Ok? ==> |r.value| == |e| && forall y | 0 <= y < |e| :: r.value[y] < |e[0]|
  {
    if |e| == 0 then Err(NoRows)
    else if |e[0]| == 0 then Err(NoColumns)
    else
      var t := AllTables(e);
      var crumb := ArgMin(t.cost[|e| - 1]);
      Ok(if |e| == 1 then [crumb] else WalkAsWritten(t.pred, |e[0]|, |e| - 2, crumb) + [crumb])
  }

  /** The walk as written ends on row 0 of the predecessor table, which
      holds zeros. */
  lemma {:induction false} WalkAsWrittenStartsAtZero(e: seq<seq<nat>>, cost: seq<seq<nat>>, pred: seq<seq<nat>>, y: nat, crumb: nat)
    requires Recurrence(e, cost, pred) && y < |cost| && crumb < |e[0]|
    ensures WalkAsWritten(pred, |e[0]|, y, crumb)[0] == 0
  {
    if y > 0 {
      WalkAsWrittenStartsAtZero(e, cost, pred, y - 1, pred[y][crumb]);
    }
  }

  /** As written, every seam of a grid with two or more rows starts in column 0
      (row 0 of the predecessor table is never filled). */
  lemma AsWrittenStartsAtColumnZero(e: seq<seq<nat>>)
    requires IsGrid(e) && |e| >= 2 && |e[0]| > 0
    ensures SeamAsWritten(e).value[0] == 0
  {
    var t := AllTables(e);
    WalkAsWrittenStartsAtZero(e, t.cost, t.pred, |e| - 2, ArgMin(t.cost[|e| - 1]));
  }

  /** `e` is the energy grid `[[1, 1, 0], [1, 1, 0]]`, given cell by cell. */
  predicate IsExampleGrid(e: seq<seq<nat>>) {
    && |e| == 2 && |e[0]| == 3 && e[1] == e[0]
    && e[0][0] == 1 && e[0][1] == 1 && e[0][2] == 0
  }

  /** The tables for the example grid: bottom costs `[2, 1, 0]`, bottom
      predecessors `[0, 2, 2]`. */
  lemma ExampleTables(e: seq<seq<nat>>)
    requires IsExampleGrid(e)
    ensures IsGrid(e) && AllTables(e) == Tables([e[0], [2, 1, 0]], [[0, 0, 0], [0, 2, 2]])
  {
    assert IsGrid(e);
    var t := AllTables(e);
    var top := e[0];
    assert t.cost[0] == top;
    assert RowFollows(e, t.cost, t.pred, 1);
    assert IsFirstCheapest(top, 0, 0) && IsFirstCheapest(top, 1, 2) && IsFirstCheapest(top, 2, 2);
    FirstCheapestUnique(top, 0, t.pred[1][0], 0);
    FirstCheapestUnique(top, 1, t.pred[1][1], 2);
    FirstCheapestUnique(top, 2, t.pred[1][2], 2);
    assert t.pred[1] == [0, 2, 2];
    assert t.cost[1] == [2, 1, 0];
    assert t.pred[0] == [0, 0, 0];
    assert t.cost == [e[0], [2, 1, 0]];
    assert t.pred == [[0, 0, 0], [0, 2, 2]];
  }

  /** What both backtracks read from the example tables: the bottom argmin is
      column 2, whose predecessor is column 2, and row 0 holds zeros. */
  lemma ExampleBottom(e: seq<seq<nat>>)
    requires IsExampleGrid(e)
    ensures IsGrid(e) && |AllTables(e).pred[0]| == |AllTables(e).pred[1]| == 3
    ensures ArgMin(AllTables(e).cost[1]) == 2 && AllTables(e).pred[0][2] == 0 && AllTables(e).pred[1][2] == 2
  {
    ExampleTables(e);
    assert ArgMin([2, 1, 0]) == 2;
  }

  /** On the energy grid `[[1, 1, 0], [1, 1, 0]]` the source returns `[0, 2]`,
      which is not connected and costs 1 (AsWrittenIsNotCheapest gives the
      seam of cost 0). */
  lemma AsWrittenCounterexample(e: seq<seq<nat>>)
    requires IsExampleGrid(e)
    ensures IsGrid(e)
    ensures SeamAsWritten(e) == Ok([0, 2]) && !IsSeam([0, 2], 2, 3) && PathEnergy(e, [0, 2]) == 1
  {
    ExampleBottom(e);
    var t := AllTables(e);
    assert |e| == 2 && |e[0]| == 3;
    assert WalkAsWritten(t.pred, 3, 0, 2) == [0];
    assert SeamAsWritten(e).value == WalkAsWritten(t.pred, 3, 0, 2) + [2] == [0, 2];
    EnergyOfTwoRows(e, 0, 2);
  }

  /** On the same grid the corrected finder returns `[2, 2]`, of cost 0, so
      the seam as written costs more than the cheapest one. */
  lemma AsWrittenIsNotCheapest(e: seq<seq<nat>>)
    requires IsExampleGrid(e)
    ensures IsGrid(e)
    ensures CheapestSeam(e) == Ok([2, 2]) && PathEnergy(e, [2, 2]) == 0
    ensures SeamAsWritten(e).Ok? && PathEnergy(e, SeamAsWritten(e).value) > PathEnergy(e, CheapestSeam(e).value)
  {
    AsWrittenCounterexample(e);
    ExampleBottom(e);
    var t := AllTables(e);
    assert Trace(t.pred, 3, 1, 2) == [2, 2] by {
      assert Trace(t.pred, 3, 0, 2) == [2];
    }
    EnergyOfTwoRows(e, 2, 2);
  }

  /** The energy of a two-row path is the sum of its two cells. */
  lemma EnergyOfTwoRows(e: seq<seq<nat>>, a: nat, b: nat)
    requires |e| >= 2 && a < |e[0]| && b < |e[1]|
    ensures PathEnergy(e, [a, b]) == e[0][a] + e[1][b]
  {
    var p: seq<nat> := [a, b];
    assert p[..1] == [a];
    var q: seq<nat> := [a];
    assert q[..0] == [];
    assert PathEnergy(e, q) == e[0][a];
  }
}
