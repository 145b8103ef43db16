/** The `SeamCarver` object: it keeps one image and the seams last found in
    it, and turns them into a mask, a shrunk image or a coloured copy. */
module Carver {
  import opened Grids
  import opened Masks
  import opened SeamRemover
  import opened CoordinateMapper
  import opened SeamFinder

  /** Entry `y` of every stored seam, in the order the seams were found: the
      tuple `zip(*seams)` yields for row `y`. */
  function Layer(seams: seq<seq<nat>>, y: nat): (layer: seq<nat>)
    requires forall i | 0 <= i < |seams| :: y < |seams[i]|
    ensures |layer| == |seams|
  {
    seq(|seams|, i requires 0 <= i < |seams| => seams[i][y])
  }

  /** Seam `i` has a column for each of the `h` rows, and each column lies in
      the image of width `w - i` it was found in; at most `w` seams fit. */
  predicate SeamsFit(seams: seq<seq<nat>>, h: nat, w: nat) {
    && |seams| <= w
    && forall i | 0 <= i < |seams| :: |seams[i]| == h && forall y | 0 <= y < h :: seams[i][y] + i < w
  }

  /** The layers of seams that fit lie in their frames. */
  lemma LayersInFrames(seams: seq<seq<nat>>, h: nat, w: nat, y: nat)
    requires SeamsFit(seams, h, w) && y < h
    ensures InFrames(Layer(seams, y), w)
  {
    forall i | 0 <= i < |seams|
      ensures Layer(seams, y)[i] + i < w
    {
      assert Layer(seams, y)[i] == seams[i][y];
    }
  }

  /** The working copy `find_seams` holds after deleting `seams` from the
      image of width `w` in order; it fails once a deletion leaves no cell. */
  function Carve<P>(image: seq<seq<P>>, w: nat, seams: seq<seq<nat>>): (r: Result<seq<seq<P>>>)
    requires IsRect(image, w) && SeamsFit(seams, |image|, w)
    ensures r.Err? <==> |seams| > 0 && (|image| == 0 || |seams| == w)
    ensures r.Err? ==> r.error == EmptyReshape
    ensures r.Ok? ==> |r.value| == |image| && IsRect(r.value, w - |seams|)
    decreases |seams|
  {
    if |seams| == 0 then Ok(image)
    else
      var k := |seams| - 1;
      assert SeamsFit(seams[..k], |image|, w);
      var prev := Carve(image, w, seams[..k]);
      if prev.Err? then prev else DeleteSeam(prev.value, w - k, seams[k])
  }

  /** Carving one more seam deletes it from the working copy. */
  lemma CarveOneMore<P>(image: seq<seq<P>>, w: nat, seams: seq<seq<nat>>, s: seq<nat>)
    requires IsRect(image, w) && SeamsFit(seams + [s], |image|, w)
    ensures SeamsFit(seams, |image|, w)
    ensures |s| == |image| && forall y | 0 <= y < |s| :: s[y] + |seams| < w
    ensures Carve(image, w, seams).Ok? ==>
      Carve(image, w, seams + [s]) == DeleteSeam(Carve(image, w, seams).value, w - |seams|, s)
  {
    assert (seams + [s])[..|seams|] == seams;
    assert (seams + [s])[|seams|] == s;
    assert forall i | 0 <= i < |seams| :: (seams + [s])[i] == seams[i];
  }

  /** Row `y` of the working copy is row `y` of the image with the seams'
      cells of that row deleted one after another. */
  lemma {:induction false} CarveRows<P>(image: seq<seq<P>>, w: nat, seams: seq<seq<nat>>, y: nat)
    requires IsRect(image, w) && SeamsFit(seams, |image|, w) && y < |image|
    requires Carve(image, w, seams).Ok?
    ensures InFrames(Layer(seams, y), w)
    ensures Carve(image, w, seams).value[y] == Narrowed(image[y], Layer(seams, y), |seams|)
    decreases |seams|
  {
    LayersInFrames(seams, |image|, w, y);
    if |seams| > 0 {
      var k := |seams| - 1;
      var front, last := seams[..k], seams[k];
      var layer := Layer(seams, y);
      assert seams == front + [last];
      CarveOneMore(image, w, front, last);
      var prev := Carve(image, w, front).value;
      assert prev[y] == Narrowed(image[y], layer, k) by {
        CarveRows(image, w, front, y);
        assert layer[..k] == Layer(front, y)[..k];
        NarrowedPrefix(image[y], layer, Layer(front, y), k);
      }
      assert Carve(image, w, seams).value[y] == RemoveAt(prev[y], layer[k]) by {
        DeleteSeamRows(prev, w - k, last, y);
      }
    }
  }

  /** The energy grid has the shape of the image it was computed from. */
  ghost predicate KeepsShape<P(!new)>(energyOf: seq<seq<P>> -> seq<seq<nat>>) {
    forall g: seq<seq<P>> {:trigger energyOf(g)} ::
      |energyOf(g)| == |g| && forall y | 0 <= y < |g| :: |energyOf(g)[y]| == |g[y]|
  }

  /** The energy of a rectangular image is a grid. */
  lemma EnergyIsGrid<P(!new)>(energyOf: seq<seq<P>> -> seq<seq<nat>>, g: seq<seq<P>>, w: nat)
    requires KeepsShape(energyOf) && IsRect(g, w)
    ensures IsGrid(energyOf(g)) && |energyOf(g)| == |g| && (|g| > 0 ==> |energyOf(g)[0]| == w)
  {
  }

  /** Seams that fit an image leave prefixes that fit it. */
  lemma PrefixFits(seams: seq<seq<nat>>, h: nat, w: nat, j: nat)
    requires SeamsFit(seams, h, w) && j <= |seams|
    ensures SeamsFit(seams[..j], h, w)
  {
    assert forall i | 0 <= i < j :: seams[..j][i] == seams[i];
  }

  /** `s` is the seam `cheapest_vertical_seam` returns for the image with the
      seams `front` deleted. */
  ghost predicate FoundAfter<P(!new)>(image: seq<seq<P>>, w: nat, front: seq<seq<nat>>, s: seq<nat>,
                                      energyOf: seq<seq<P>> -> seq<seq<nat>>)
    requires IsRect(image, w) && SeamsFit(front, |image|, w) && KeepsShape(energyOf)
  {
    var carved := Carve(image, w, front);
    && carved.Ok?
    && (EnergyIsGrid(energyOf, carved.value, w - |front|); CheapestSeam(energyOf(carved.value)) == Ok(s))
  }

  /** Each stored seam is the cheapest seam of the energy of the working copy
      it was found in: seam `i` of the image with seams `0 .. i - 1` deleted. */
  ghost predicate SeamsFound<P(!new)>(image: seq<seq<P>>, w: nat, seams: seq<seq<nat>>, energyOf: seq<seq<P>> -> seq<seq<nat>>)
    requires IsRect(image, w) && SeamsFit(seams, |image|, w) && KeepsShape(energyOf)
  {
    forall i | 0 <= i < |seams| ::
      PrefixFits(seams, |image|, w, i);
      FoundAfter(image, w, seams[..i], seams[i], energyOf)
  }

  /** Stored seam `i` is the seam `cheapest_vertical_seam` returns for the
      image with seams `0 .. i - 1` deleted. */
  lemma FoundSeamIsCheapest<P(!new)>(image: seq<seq<P>>, w: nat, seams: seq<seq<nat>>,
                                     energyOf: seq<seq<P>> -> seq<seq<nat>>, i: nat)
    requires IsRect(image, w) && SeamsFit(seams, |image|, w) && KeepsShape(energyOf)
    requires SeamsFound(image, w, seams, energyOf) && i < |seams|
    ensures SeamsFit(seams[..i], |image|, w) && Carve(image, w, seams[..i]).Ok?
    ensures IsGrid(energyOf(Carve(image, w, seams[..i]).value))
    ensures CheapestSeam(energyOf(Carve(image, w, seams[..i]).value)) == Ok(seams[i])
  {
    PrefixFits(seams, |image|, w, i);
    assert FoundAfter(image, w, seams[..i], seams[i], energyOf);
  }

  /** No seam of the image with seams `0 .. i - 1` deleted has less energy
      than stored seam `i`. */
  lemma FoundSeamIsOptimal<P(!new)>(image: seq<seq<P>>, w: nat, seams: seq<seq<nat>>,
                                    energyOf: seq<seq<P>> -> seq<seq<nat>>, i: nat)
    requires IsRect(image, w) && SeamsFit(seams, |image|, w) && KeepsShape(energyOf)
    requires SeamsFound(image, w, seams, energyOf) && i < |seams|
    ensures SeamsFit(seams[..i], |image|, w) && Carve(image, w, seams[..i]).Ok?
    ensures var e := energyOf(Carve(image, w, seams[..i]).value);
      && |e| == |image| > 0 && |e[0]| == w - i
      && forall t | IsSeam(t, |e|, |e[0]|) :: PathEnergy(e, seams[i]) <= PathEnergy(e, t)
  {
    FoundSeamIsCheapest(image, w, seams, energyOf, i);
    var carved := Carve(image, w, seams[..i]).value;
    EnergyIsGrid(energyOf, carved, w - i);
    CheapestSeamIsOptimal(energyOf(carved));
  }

  /** Keeping one more seam, found as the cheapest seam of the working copy
      the stored seams leave, keeps every stored seam found. */
  lemma FoundOneMore<P(!new)>(image: seq<seq<P>>, w: nat, seams: seq<seq<nat>>, s: seq<nat>,
                              energyOf: seq<seq<P>> -> seq<seq<nat>>, temp: seq<seq<P>>)
    requires IsRect(image, w) && SeamsFit(seams, |image|, w) && SeamsFit(seams + [s], |image|, w)
    requires KeepsShape(energyOf) && SeamsFound(image, w, seams, energyOf)
    requires Carve(image, w, seams) == Ok(temp) && IsGrid(energyOf(temp))
    requires CheapestSeam(energyOf(temp)) == Ok(s)
    ensures SeamsFound(image, w, seams + [s], energyOf)
  {
    var more := seams + [s];
    forall i | 0 <= i < |more|
      ensures SeamsFit(more[..i], |image|, w) && FoundAfter(image, w, more[..i], more[i], energyOf)
    {
      PrefixFits(more, |image|, w, i);
      if i < |seams| {
        assert more[..i] == seams[..i] && more[i] == seams[i];
        PrefixFits(seams, |image|, w, i);
        assert FoundAfter(image, w, seams[..i], seams[i], energyOf);
      } else {
        assert more[..i] == seams && more[i] == s;
      }
    }
  }

  /** A column path of the working copy after `|seams|` deletions, connected
      or not, fits as the next stored seam. */
  lemma SeamFits(seams: seq<seq<nat>>, h: nat, w: nat, s: seq<nat>)
    requires SeamsFit(seams, h, w) && |seams| < w
    requires |s| == h && forall y | 0 <= y < h :: s[y] < w - |seams|
    ensures SeamsFit(seams + [s], h, w)
  {
    assert forall i | 0 <= i < |seams| :: (seams + [s])[i] == seams[i];
  }

  /** The seam the backtrack as written returns for the working copy's
      energy also fits as the next stored seam, so the mask, `shrink` and
      `color` accept the seams the source stores. */
  lemma AsWrittenSeamFits(seams: seq<seq<nat>>, h: nat, w: nat, e: seq<seq<nat>>)
    requires SeamsFit(seams, h, w) && |seams| < w
    requires IsGrid(e) && |e| == h > 0 && |e[0]| == w - |seams|
    ensures SeamAsWritten(e).Ok? && SeamsFit(seams + [SeamAsWritten(e).value], h, w)
  {
    SeamFits(seams, h, w, SeamAsWritten(e).value);
  }

  /** The state of `find_seams` between two steps: `temp` is the image with
      the stored seams deleted, each of them found as the cheapest seam. */
  ghost predicate Searched<P(!new)>(image: seq<seq<P>>, w: nat, seams: seq<seq<nat>>, temp: seq<seq<P>>,
                                    energyOf: seq<seq<P>> -> seq<seq<nat>>)
  {
    && IsRect(image, w) && SeamsFit(seams, |image|, w) && KeepsShape(energyOf)
    && Carve(image, w, seams) == Ok(temp)
    && SeamsFound(image, w, seams, energyOf)
  }

  /** One step of `find_seams`: the cheapest seam of the working copy is
      stored, and deleting it from the working copy, when that succeeds,
      leaves the next state. */
  lemma SearchStep<P(!new)>(image: seq<seq<P>>, w: nat, seams: seq<seq<nat>>, temp: seq<seq<P>>,
                            energyOf: seq<seq<P>> -> seq<seq<nat>>, s: seq<nat>)
    requires Searched(image, w, seams, temp, energyOf) && |seams| < w
    requires IsGrid(energyOf(temp)) && CheapestSeam(energyOf(temp)) == Ok(s)
    ensures SeamsFit(seams + [s], |image|, w) && SeamsFound(image, w, seams + [s], energyOf)
    ensures |s| == |temp| && IsRect(temp, w - |seams|) && forall y | 0 <= y < |s| :: s[y] < w - |seams|
    ensures DeleteSeam(temp, w - |seams|, s).Ok? ==>
      Searched(image, w, seams + [s], DeleteSeam(temp, w - |seams|, s).value, energyOf)
  {
    EnergyIsGrid(energyOf, temp, w - |seams|);
    SeamFits(seams, |image|, w, s);
    FoundOneMore(image, w, seams, s, energyOf, temp);
    CarveOneMore(image, w, seams, s);
  }

  /** One pass of the loop of `find_seams` from the state `seams`, `temp`:
      the cheapest seam of the working copy, and the working copy with that
      seam deleted. */
  method NextSeam<P(!new)>(image: seq<seq<P>>, width: nat, seams: seq<seq<nat>>, temp: seq<seq<P>>,
                           energyOf: seq<seq<P>> -> seq<seq<nat>>)
    returns (found: Result<seq<nat>>, next: Result<seq<seq<P>>>)
    requires Searched(image, width, seams, temp, energyOf)
    ensures found.Err? <==> |image| == 0 || |seams| == width
    ensures found.Err? ==> found.error == (if |image| == 0 then NoRows else NoColumns)
    ensures found.Ok? ==> SeamsFit(seams + [found.value], |image|, width)
    ensures found.Ok? ==> SeamsFound(image, width, seams + [found.value], energyOf)
    ensures found.Ok? ==> (next.Err? <==> |seams| + 1 == width) && (next.Err? ==> next.error == EmptyReshape)
    ensures found.Ok? && next.Ok? ==> Searched(image, width, seams + [found.value], next.value, energyOf)
  {
    EnergyIsGrid(energyOf, temp, width - |seams|);
    found := CheapestVerticalSeam(energyOf(temp));
    if found.Err? {
      return found, Err(EmptyReshape);
    }
    SearchStep(image, width, seams, temp, energyOf, found.value);
    next := DeleteSeam(temp, width - |seams|, found.value);
  }

  /** The loop of `find_seams`: the seams found in `image`, up to `count` of
      them or up to the first exception, and how the search ended. */
  method SearchSeams<P(!new)>(image: seq<seq<P>>, width: nat, count: int, energyOf: seq<seq<P>> -> seq<seq<nat>>)
    returns (seams: seq<seq<nat>>, status: Status)
    requires IsRect(image, width) && KeepsShape(energyOf)
    ensures SeamsFit(seams, |image|, width)
    ensures status.Done? <==> count <= 0 || (|image| > 0 && count < width)
    ensures status.Failed? ==> status.error == (if |image| == 0 then NoRows else if width == 0 then NoColumns else EmptyReshape)
    ensures |seams| == (if status.Done? then (if count <= 0 then 0 else count) else if |image| == 0 || width == 0 then 0 else width)
    ensures SeamsFound(image, width, seams, energyOf)
  {
    seams := [];
    var temp := image;
    var i: nat := 0;
    while i < count
      invariant |seams| == i
      invariant i > 0 ==> |image| > 0 && i < width && i <= count
      invariant Searched(image, width, seams, temp, energyOf)
    {
      var found, next := NextSeam(image, width, seams, temp, energyOf);
      if found.Err? {
        return seams, Failed(found.error);
      }
      seams := seams + [found.value];
      if next.Err? {
        return seams, Failed(next.error);
      }
      temp := next.value;
      i := i + 1;
    }
    return seams, Done;
  }

  /** Row `y` of the mask `_create_mask` builds for the stored seams. */
  function SeamMask(seams: seq<seq<nat>>, h: nat, w: nat, y: nat, inverted: bool): (m: seq<bool>)
    requires SeamsFit(seams, h, w) && y < h
    ensures |m| == w
  {
    LayersInFrames(seams, h, w, y);
    MaskRow(Layer(seams, y), w, |seams|, inverted)
  }

  /** The original column of seam `i`'s cell, found by walking the earlier
      seams of the layer from the latest back to the first and stepping right
      past each one at or left of the running column. */
  method OriginalColumn(layer: seq<nat>, i: nat) returns (x: nat)
    requires i < |layer|
    ensures x == Recover(layer, i)
  {
    x := layer[i];
    var j := i;
    while j > 0
      invariant j <= i && x == Lift(layer, j, i, layer[i])
    {
      j := j - 1;
      if layer[j] <= x {
        x := x + 1;
      }
    }
  }

  /** Writes `inverted` into row `y` of the mask at the original column of
      every seam of the layer, the row having been all `!inverted`. */
  method MarkLayer(mask: array2<bool>, y: nat, layer: seq<nat>, inverted: bool)
    requires y < mask.Length0 && InFrames(layer, mask.Length1)
    requires forall x | 0 <= x < mask.Length1 :: mask[y, x] == !inverted
    modifies mask
    ensures forall x | 0 <= x < mask.Length1 :: mask[y, x] == MaskRow(layer, mask.Length1, |layer|, inverted)[x]
    ensures forall r, x | 0 <= r < mask.Length0 && r != y && 0 <= x < mask.Length1 :: mask[r, x] == old(mask[r, x])
  {
    for i := 0 to |layer|
      invariant forall x | 0 <= x < mask.Length1 :: mask[y, x] == MaskRow(layer, mask.Length1, i, inverted)[x]
      invariant forall r, x | 0 <= r < mask.Length0 && r != y && 0 <= x < mask.Length1 :: mask[r, x] == old(mask[r, x])
    {
      var x := OriginalColumn(layer, i);
      RecoverInRange(layer, mask.Length1, i);
      mask[y, x] := inverted;
    }
  }

  /** Row `y` of a two-dimensional array. */
  function ArrayRow<T>(a: array2<T>, y: nat): (r: seq<T>)
    requires y < a.Length0
    reads a
    ensures |r| == a.Length1 && forall x | 0 <= x < a.Length1 :: r[x] == a[y, x]
  {
    seq(a.Length1, x requires 0 <= x < a.Length1 reads a => a[y, x])
  }

  class SeamCarver<P(!new)> {
    const image: seq<seq<P>>
    const height: nat
    const width: nat
    var seams: seq<seq<nat>>

    /** The image is `height` rows of `width` pixels, and the stored seams fit
        it. */
    ghost predicate Valid()
      reads this
    {
      IsRect(image, width) && height == |image| && SeamsFit(seams, height, width)
    }

    /** A carver for a `height` by `width` image, with no seams found yet. */
    constructor (image: seq<seq<P>>, width: nat)
      requires IsRect(image, width)
      ensures Valid() && this.image == image && height == |image| && this.width == width && seams == []
    {
      this.image := image;
      this.height := |image|;
      this.width := width;
      seams := [];
    }

    /** Finds `count` seams one after another, each the cheapest seam of the
        energy of the image with the earlier ones deleted, and stores them.
        The first exception ends the search and leaves the seams found so far
        stored: none when the image has no rows or no columns, and `width`
        when the seams run out of columns. */
    method FindSeams(count: int, energyOf: seq<seq<P>> -> seq<seq<nat>>) returns (status: Status)
      requires Valid() && KeepsShape(energyOf)
      modifies this
      ensures Valid()
      ensures status.Done? <==> count <= 0 || (height > 0 && count < width)
      ensures status.Failed? ==> status.error == (if height == 0 then NoRows else if width == 0 then NoColumns else EmptyReshape)
      ensures |seams| == (if status.Done? then (if count <= 0 then 0 else count) else if height == 0 || width == 0 then 0 else width)
      ensures SeamsFound(image, width, seams, energyOf)
    {
      var found;
      found, status := SearchSeams(image, width, count, energyOf);
      seams := found;
    }

    /** The mask of the stored seams: `inverted` in the original cell of every
        seam and `!inverted` everywhere else. */
    method CreateMask(inverted: bool) returns (mask: array2<bool>)
      requires Valid()
      ensures fresh(mask) && mask.Length0 == height && mask.Length1 == width
      ensures forall y, x | 0 <= y < height && 0 <= x < width :: mask[y, x] == SeamMask(seams, height, width, y, inverted)[x]
    {
      mask := new bool[height, width]((_, _) => !inverted);
      for y := 0 to height
        invariant forall r, x | 0 <= r < y && 0 <= x < width :: mask[r, x] == SeamMask(seams, height, width, r, inverted)[x]
        invariant forall r, x | y <= r < height && 0 <= x < width :: mask[r, x] == !inverted
      {
        LayersInFrames(seams, height, width, y);
        MarkLayer(mask, y, Layer(seams, y), inverted);
      }
    }

    /** The image with the stored seams' cells deleted, rows of
        `width - |seams|` pixels: the working copy `FindSeams` ended with. The
        reshape fails when nothing is left. */
    method Shrink() returns (r: Result<seq<seq<P>>>)
      requires Valid()
      ensures r.Err? <==> height == 0 || |seams| == width
      ensures r.Err? ==> r.error == EmptyReshape
      ensures r.Ok? ==> |r.value| == height && IsRect(r.value, width - |seams|)
      ensures r.Ok? ==> r == Carve(image, width, seams)
    {
      var mask := CreateMask(false);
      if height == 0 || |seams| == width {
        return Err(EmptyReshape);
      }
      var rows := seq(height, y requires 0 <= y < height reads mask => Select(image[y], ArrayRow(mask, y)));
      forall y | 0 <= y < height
        ensures rows[y] == Carve(image, width, seams).value[y]
      {
        assert ArrayRow(mask, y) == SeamMask(seams, height, width, y, false);
        SelectMaskRowIsNarrowed(image[y], Layer(seams, y), |seams|);
        CarveRows(image, width, seams, y);
      }
      assert rows == Carve(image, width, seams).value;
      return Ok(rows);
    }

    /** A copy of the image with every stored seam's cell painted `rgb`. */
    method Color(rgb: P) returns (duplicate: array2<P>)
      requires Valid()
      ensures fresh(duplicate) && duplicate.Length0 == height && duplicate.Length1 == width
      ensures forall y, x | 0 <= y < height && 0 <= x < width ::
        duplicate[y, x] == if SeamMask(seams, height, width, y, true)[x] then rgb else image[y][x]
    {
      var mask := CreateMask(true);
      duplicate := new P[height, width]((y, x) requires 0 <= y < height && 0 <= x < width => image[y][x]);
      for y := 0 to height
        modifies duplicate
        invariant forall r, x | 0 <= r < y && 0 <= x < width ::
          duplicate[r, x] == if mask[r, x] then rgb else image[r][x]
        invariant forall r, x | y <= r < height && 0 <= x < width :: duplicate[r, x] == image[r][x]
      {
        for x := 0 to width
          modifies duplicate
          invariant forall r, c | 0 <= r < y && 0 <= c < width ::
            duplicate[r, c] == if mask[r, c] then rgb else image[r][c]
          invariant forall c | 0 <= c < x :: duplicate[y, c] == if mask[y, c] then rgb else image[y][c]
          invariant forall r, c | (y < r < height || (r == y && x <= c)) && 0 <= c < width :: duplicate[r, c] == image[r][c]
        {
          if mask[y, x] {
            duplicate[y, x] := rgb;
          }
        }
      }
    }
  }
}
