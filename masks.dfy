// Per-frame validity masks and the masking of the blurred depth map
// (src/main.cpp:155-162 and 170-181).
//
// A mask cell is 1 where the depth sample is usable and 0 where the sensor
// reported a dropout (depth exactly 0). The frame loop builds a simple mask of
// the depth frame's size and a stacked mask twice as tall holding two copies of
// it, erodes both with a square window of the blur's width, and multiplies the
// blurred depth by the eroded simple mask.

module Masks {
  import opened Grids

  /** A 0/1 mask, one int per pixel (the source stores it as floats 0.0/1.0). */
  type Mask = Rows<int>

  /** A depth map in metres, one real per pixel. */
  type Depth = Rows<real>

  /** Width of the Gaussian window and of the erosion's structuring element. */
  const FilterWidth: nat := 7

  /** The structuring element is anchored at its centre, so it reaches this far. */
  const Radius: nat := FilterWidth / 2

  predicate IsBinary(m: Mask)
  {
    forall r, c :: 0 <= r < |m| && 0 <= c < |m[r]| ==> m[r][c] == 0 || m[r][c] == 1
  }

  // ---------------------------------------------------------------------------
  // Specification functions

  /** The mask of a depth map: 0 at dropouts, 1 elsewhere. */
  function MaskOf(depth: Depth): (m: Mask)
    ensures SameShape(m, depth)
    ensures IsBinary(m)
  {
    seq(|depth|, r requires 0 <= r < |depth| =>
      seq(|depth[r]|, c requires 0 <= c < |depth[r]| => if depth[r][c] == 0.0 then 0 else 1))
  }

  /** The stacked mask: the rows of `m` followed by the rows of `m` again. */
  function Stack(m: Mask): (s: Mask)
    ensures |s| == 2 * |m|
    ensures forall r :: 0 <= r < |m| ==> s[r] == m[r] && s[r + |m|] == m[r]
    ensures IsBinary(m) ==> IsBinary(s)
  {
    m + m
  }

  /** Pixel (i, j) lies in the square window of radius `rad` centred on (r, c). */
  predicate Near(rad: nat, r: int, c: int, i: int, j: int)
  {
    r - rad <= i <= r + rad && c - rad <= j <= c + rad
  }

  /** Every in-row cell of `row` within `rad` columns of `c` is 1. */
  predicate RowOnesNear(row: seq<int>, rad: nat, c: int)
  {
    forall j :: 0 <= j < |row| && c - rad <= j <= c + rad ==> row[j] == 1
  }

  /** Every in-image cell of the window of radius `rad` around (r, c) is 1.
      Cells outside the image do not count: erosion's default border in OpenCV
      is the largest value of the type, which never lowers the minimum. */
  predicate AllOnesNear(g: Mask, rad: nat, r: int, c: int)
  {
    forall i :: 0 <= i < |g| && r - rad <= i <= r + rad ==> RowOnesNear(g[i], rad, c)
  }

  /** The eroded value at (r, c); for a 0/1 mask it is the minimum over the window. */
  function ErodedAt(g: Mask, rad: nat, r: int, c: int): (v: int)
    ensures v == 0 || v == 1
    ensures v == 1 ==> !(0 <= r < |g| && 0 <= c < |g[r]|) || g[r][c] == 1
  {
    if AllOnesNear(g, rad, r, c) then 1 else 0
  }

  /** Erosion of a mask by the square structuring element of radius `rad`. */
  function Eroded(g: Mask, rad: nat): (e: Mask)
    ensures SameShape(e, g)
    ensures IsBinary(e)
  {
    seq(|g|, r requires 0 <= r < |g| =>
      seq(|g[r]|, c requires 0 <= c < |g[r]| => ErodedAt(g, rad, r, c)))
  }

  /** The elementwise product of a depth map and a mask of the same shape. */
  function Masked(d: Depth, m: Mask): (o: Depth)
    requires SameShape(d, m)
    ensures SameShape(o, d)
  {
    seq(|d|, r requires 0 <= r < |d| =>
      seq(|d[r]|, c requires 0 <= c < |d[r]| => d[r][c] * m[r][c] as real))
  }

  // ---------------------------------------------------------------------------
  // Properties of the specification

  /** The mask is 0 exactly at the dropouts and 1 everywhere else. */
  lemma MaskOfMeaning(depth: Depth, r: nat, c: nat)
    requires r < |depth| && c < |depth[r]|
    ensures MaskOf(depth)[r][c] == 0 <==> depth[r][c] == 0.0
    ensures MaskOf(depth)[r][c] == 1 <==> depth[r][c] != 0.0
    ensures IsBinary(MaskOf(depth))
  {
  }

  /** Erosion gives 1 at (r, c) exactly when every in-image pixel within row and
      column distance `rad` is 1, and 0 otherwise. */
  lemma ErodedAtMeaning(g: Mask, rad: nat, r: int, c: int)
    ensures ErodedAt(g, rad, r, c) == 1 <==>
      forall i, j :: 0 <= i < |g| && 0 <= j < |g[i]| && Near(rad, r, c, i, j) ==> g[i][j] == 1
    ensures ErodedAt(g, rad, r, c) == 0 <==>
      exists i, j :: 0 <= i < |g| && 0 <= j < |g[i]| && Near(rad, r, c, i, j) && g[i][j] != 1
  {
  }

  /** Erosion never enlarges the valid region: the eroded mask is below the original. */
  lemma ErodedWithin(g: Mask, rad: nat, r: nat, c: nat)
    requires r < |g| && c < |g[r]|
    ensures Eroded(g, rad)[r][c] == 1 ==> g[r][c] == 1
  {
  }

  /** A mask that is 1 everywhere is left unchanged by erosion. */
  lemma ErodedAllOnes(g: Mask, rad: nat)
    requires forall r, c :: 0 <= r < |g| && 0 <= c < |g[r]| ==> g[r][c] == 1
    ensures Eroded(g, rad) == g
  {
    var e := Eroded(g, rad);
    forall r, c | 0 <= r < |e| && 0 <= c < |e[r]|
      ensures e[r][c] == g[r][c]
    {
      ErodedAtMeaning(g, rad, r, c);
    }
    CellwiseEqual(e, g);
  }

  /** A mask with a single dropout at (pr, pc) erodes to 0 exactly within the
      window around that dropout (a 3x3 element on a 4x4 frame with a dropout at
      (2, 2) is the case with radius 1). */
  lemma SingleDropout(g: Mask, rad: nat, pr: nat, pc: nat, r: nat, c: nat)
    requires IsBinary(g) && pr < |g| && pc < |g[pr]| && r < |g| && c < |g[r]|
    requires forall i, j :: 0 <= i < |g| && 0 <= j < |g[i]| ==> (g[i][j] == 0 <==> i == pr && j == pc)
    ensures Eroded(g, rad)[r][c] == 0 <==> Near(rad, r, c, pr, pc)
  {
    ErodedAtMeaning(g, rad, r, c);
    if Near(rad, r, c, pr, pc) {
      assert g[pr][pc] != 1;
    }
  }

  /** Away from the seam between its two halves, the eroded stacked mask agrees
      with the eroded simple mask: rows of the top half more than `rad` rows above
      the seam, and rows of the bottom half at least `rad` rows below it. */
  lemma {:induction false} StackedErosionAwayFromSeam(m: Mask, rad: nat, r: nat, c: int)
    requires r < |m|
    ensures r + rad < |m| ==> ErodedAt(Stack(m), rad, r, c) == ErodedAt(m, rad, r, c)
    ensures rad <= r ==> ErodedAt(Stack(m), rad, r + |m|, c) == ErodedAt(m, rad, r, c)
  {
    var s := Stack(m);
    if r + rad < |m| {
      forall i | 0 <= i < |s| && r - rad <= i <= r + rad
        ensures i < |m| && s[i] == m[i]
      {
      }
      assert AllOnesNear(s, rad, r, c) <==> AllOnesNear(m, rad, r, c);
    }
    if rad <= r {
      forall i | 0 <= i < |s| && r + |m| - rad <= i <= r + |m| + rad
        ensures |m| <= i && s[i] == m[i - |m|]
      {
        assert s[(i - |m|) + |m|] == m[i - |m|];
      }
      assert AllOnesNear(s, rad, r + |m|, c) ==> AllOnesNear(m, rad, r, c) by {
        if AllOnesNear(s, rad, r + |m|, c) {
          forall k | 0 <= k < |m| && r - rad <= k <= r + rad
            ensures RowOnesNear(m[k], rad, c)
          {
            assert s[k + |m|] == m[k];
          }
        }
      }
    }
  }

  /** Near the seam the stacked mask's window also sees the other copy, so the
      eroded stacked mask is at most the stacked copies of the eroded mask. */
  lemma {:induction false} StackedErosionWithinCopies(m: Mask, rad: nat, r: nat, c: int)
    requires r < |m|
    ensures ErodedAt(Stack(m), rad, r, c) <= ErodedAt(m, rad, r, c)
    ensures ErodedAt(Stack(m), rad, r + |m|, c) <= ErodedAt(m, rad, r, c)
  {
    var s := Stack(m);
    if AllOnesNear(s, rad, r, c) {
      forall k | 0 <= k < |m| && r - rad <= k <= r + rad
        ensures RowOnesNear(m[k], rad, c)
      {
        assert s[k] == m[k];
      }
    }
    if AllOnesNear(s, rad, r + |m|, c) {
      forall k | 0 <= k < |m| && r - rad <= k <= r + rad
        ensures RowOnesNear(m[k], rad, c)
      {
        assert s[k + |m|] == m[k];
      }
    }
  }

  /** Eroding the stacked mask is not the same as stacking the eroded mask: a
      dropout in the first row reaches across the seam into the top half. */
  lemma ErosionCrossesSeam()
    ensures Eroded(Stack([[0], [1], [1], [1], [1]]), Radius) != Stack(Eroded([[0], [1], [1], [1], [1]], Radius))
  {
    var m: Mask := [[0], [1], [1], [1], [1]];
    var s := Stack(m);
    assert s[5] == [0] && s[5][0] == 0;
    assert !RowOnesNear(s[5], Radius, 0);
    assert !AllOnesNear(s, Radius, 4, 0);
    assert Eroded(s, Radius)[4][0] == 0;
    forall k | 0 <= k < |m| && 4 - Radius <= k <= 4 + Radius
      ensures RowOnesNear(m[k], Radius, 0)
    {
      assert m[k] == [1];
    }
    assert Eroded(m, Radius)[4][0] == 1;
    assert Stack(Eroded(m, Radius))[4][0] == 1;
  }

  /** Multiplying by a 0/1 mask selects: the depth is kept where the mask is 1
      and replaced by 0 where it is 0. */
  lemma MaskedSelects(d: Depth, m: Mask, r: nat, c: nat)
    requires SameShape(d, m) && r < |d| && c < |d[r]|
    ensures m[r][c] == 1 ==> Masked(d, m)[r][c] == d[r][c]
    ensures m[r][c] == 0 ==> Masked(d, m)[r][c] == 0.0
  {
  }

  /** The masked blurred depth keeps the blurred value exactly at the pixels whose
      whole window of raw depth is free of dropouts, so no zero sample can have
      bled into it through a blur of the same width, and is 0 everywhere else. */
  lemma FilteredDepthAwayFromDropouts(raw: Depth, blurred: Depth, r: nat, c: nat)
    requires SameShape(raw, blurred) && r < |raw| && c < |raw[r]|
    ensures SameShape(blurred, Eroded(MaskOf(raw), Radius))
    ensures (forall i, j :: 0 <= i < |raw| && 0 <= j < |raw[i]| && Near(Radius, r, c, i, j) ==> raw[i][j] != 0.0)
      ==> Masked(blurred, Eroded(MaskOf(raw), Radius))[r][c] == blurred[r][c]
    ensures (exists i, j :: 0 <= i < |raw| && 0 <= j < |raw[i]| && Near(Radius, r, c, i, j) && raw[i][j] == 0.0)
      ==> Masked(blurred, Eroded(MaskOf(raw), Radius))[r][c] == 0.0
  {
    var m := MaskOf(raw);
    var e := Eroded(m, Radius);
    ErodedAtMeaning(m, Radius, r, c);
    MaskedSelects(blurred, e, r, c);
    if forall i, j :: 0 <= i < |raw| && 0 <= j < |raw[i]| && Near(Radius, r, c, i, j) ==> raw[i][j] != 0.0 {
      forall i, j | 0 <= i < |m| && 0 <= j < |m[i]| && Near(Radius, r, c, i, j)
        ensures m[i][j] == 1
      {
        MaskOfMeaning(raw, i, j);
      }
    } else {
      var i, j :| 0 <= i < |raw| && 0 <= j < |raw[i]| && Near(Radius, r, c, i, j) && raw[i][j] == 0.0;
      MaskOfMeaning(raw, i, j);
      assert m[i][j] != 1;
    }
  }

  // ---------------------------------------------------------------------------
  // The operations on matrices, changed in place

  /** `mask.setTo(0, depth == 0)`: zero the mask wherever the depth is exactly 0. */
  method ZeroAtDropouts(mask: array2<int>, depth: array2<real>)
    requires mask.Length0 == depth.Length0 && mask.Length1 == depth.Length1
    modifies mask
    ensures forall r, c :: 0 <= r < mask.Length0 && 0 <= c < mask.Length1 ==>
      mask[r, c] == if depth[r, c] == 0.0 then 0 else old(mask[r, c])
  {
    for r := 0 to mask.Length0
      invariant forall i, j :: 0 <= i < mask.Length0 && 0 <= j < mask.Length1 ==>
        mask[i, j] == if i < r && depth[i, j] == 0.0 then 0 else old(mask[i, j])
    {
      for c := 0 to mask.Length1
        invariant forall i, j :: 0 <= i < mask.Length0 && 0 <= j < mask.Length1 ==>
          mask[i, j] == if (i < r || (i == r && j < c)) && depth[i, j] == 0.0 then 0 else old(mask[i, j])
      {
        if depth[r, c] == 0.0 {
          mask[r, c] := 0;
        }
      }
    }
  }

  /** `src.copyTo(dst(Rect(0, top, src.cols, src.rows)))`: copy `src` into the
      rows `top` .. `top + src.rows - 1` of `dst`, leaving the other rows alone. */
  method CopyIntoRows(src: array2<int>, dst: array2<int>, top: nat)
    requires src != dst
    requires dst.Length1 == src.Length1 && top + src.Length0 <= dst.Length0
    modifies dst
    ensures forall r, c :: 0 <= r < dst.Length0 && 0 <= c < dst.Length1 ==>
      dst[r, c] == if top <= r < top + src.Length0 then src[r - top, c] else old(dst[r, c])
  {
    for r := 0 to src.Length0
      invariant forall i, j :: 0 <= i < dst.Length0 && 0 <= j < dst.Length1 ==>
        dst[i, j] == if top <= i < top + r then src[i - top, j] else old(dst[i, j])
    {
      for c := 0 to src.Length1
        invariant forall i, j :: 0 <= i < dst.Length0 && 0 <= j < dst.Length1 ==>
          dst[i, j] == if top <= i < top + r || (i == top + r && j < c) then src[i - top, j] else old(dst[i, j])
      {
        dst[top + r, c] := src[r, c];
      }
    }
  }

  /** Builds the simple mask of a depth frame and the stacked mask that holds it
      twice, one copy above the other. */
  method BuildMasks(depth: array2<real>) returns (mask: array2<int>, stacked: array2<int>)
    ensures fresh(mask) && fresh(stacked)
    ensures mask.Length0 == depth.Length0 && mask.Length1 == depth.Length1
    ensures stacked.Length0 == 2 * depth.Length0 && stacked.Length1 == depth.Length1
    ensures Cells(mask) == MaskOf(Cells(depth))
    ensures Cells(stacked) == Stack(Cells(mask))
  {
    var h, w := depth.Length0, depth.Length1;
    stacked := new int[2 * h, w]((r, c) => 1);
    mask := new int[h, w]((r, c) => 1);
    ZeroAtDropouts(mask, depth);
    CopyIntoRows(mask, stacked, 0);
    CopyIntoRows(mask, stacked, h);
    CellwiseEqual(Cells(mask), MaskOf(Cells(depth)));
    CellwiseEqual(Cells(stacked), Stack(Cells(mask)));
  }

  /** Whether every in-row cell within `rad` columns of `c` is 1. */
  method RowAllOnes(row: seq<int>, rad: nat, c: nat) returns (ok: bool)
    ensures ok == RowOnesNear(row, rad, c)
  {
    var j: nat := if c >= rad then c - rad else 0;
    ok := true;
    while j < |row| && j <= c + rad
      invariant c - rad <= j
      invariant ok == forall k :: 0 <= k < j && k < |row| && c - rad <= k <= c + rad ==> row[k] == 1
      decreases |row| - j
    {
      ok := ok && row[j] == 1;
      j := j + 1;
    }
  }

  /** Whether every in-image cell of the window of radius `rad` around (r, c) is 1. */
  method WindowAllOnes(g: Mask, rad: nat, r: nat, c: nat) returns (ok: bool)
    ensures ok == AllOnesNear(g, rad, r, c)
  {
    var i: nat := if r >= rad then r - rad else 0;
    ok := true;
    while i < |g| && i <= r + rad
      invariant r - rad <= i
      invariant ok == forall k :: 0 <= k < i && k < |g| && r - rad <= k <= r + rad ==> RowOnesNear(g[k], rad, c)
      decreases |g| - i
    {
      var rowOk := RowAllOnes(g[i], rad, c);
      ok := ok && rowOk;
      i := i + 1;
    }
  }

  /** `erode(m, m, element)` with the square element of radius `rad`: the matrix
      is read as it was before the call and overwritten with its erosion. */
  method Erode(m: array2<int>, rad: nat)
    requires IsBinary(Cells(m))
    modifies m
    ensures Cells(m) == Eroded(old(Cells(m)), rad)
  {
    var src := Cells(m);
    for r := 0 to m.Length0
      invariant forall i, j :: 0 <= i < r && 0 <= j < m.Length1 ==> m[i, j] == ErodedAt(src, rad, i, j)
    {
      for c := 0 to m.Length1
        invariant forall i, j :: 0 <= i < r && 0 <= j < m.Length1 ==> m[i, j] == ErodedAt(src, rad, i, j)
        invariant forall j :: 0 <= j < c ==> m[r, j] == ErodedAt(src, rad, r, j)
      {
        var ok := WindowAllOnes(src, rad, r, c);
        m[r, c] := if ok then 1 else 0;
      }
    }
    CellwiseEqual(Cells(m), Eroded(src, rad));
  }

  /** `d = d.mul(m)`: multiply a depth map by a mask of the same size, cell by cell. */
  method MultiplyByMask(d: array2<real>, m: array2<int>)
    requires d.Length0 == m.Length0 && d.Length1 == m.Length1
    modifies d
    ensures Cells(d) == Masked(old(Cells(d)), Cells(m))
  {
    ghost var before := Cells(d);
    for r := 0 to d.Length0
      invariant forall i, j :: 0 <= i < d.Length0 && 0 <= j < d.Length1 ==>
        d[i, j] == if i < r then before[i][j] * m[i, j] as real else before[i][j]
    {
      for c := 0 to d.Length1
        invariant forall i, j :: 0 <= i < d.Length0 && 0 <= j < d.Length1 ==>
          d[i, j] == if i < r || (i == r && j < c) then before[i][j] * m[i, j] as real else before[i][j]
      {
        d[r, c] := d[r, c] * m[r, c] as real;
      }
    }
    forall i, j | 0 <= i < d.Length0 && 0 <= j < d.Length1
      ensures Cells(d)[i][j] == Masked(before, Cells(m))[i][j]
    {
      assert Cells(m)[i][j] == m[i, j];
    }
    CellwiseEqual(Cells(d), Masked(before, Cells(m)));
  }

  /** One frame's masking: build both masks from the raw depth, erode them with
      the blur's window and cut the blurred depth down to the eroded simple mask. */
  method MaskFrame(depth: array2<real>, blurred: array2<real>) returns (mask: array2<int>, stacked: array2<int>)
    requires blurred.Length0 == depth.Length0 && blurred.Length1 == depth.Length1
    modifies blurred
    ensures fresh(mask) && fresh(stacked)
    ensures Cells(mask) == Eroded(MaskOf(old(Cells(depth))), Radius)
    ensures Cells(stacked) == Eroded(Stack(MaskOf(old(Cells(depth)))), Radius)
    ensures Cells(blurred) == Masked(old(Cells(blurred)), Cells(mask))
  {
    mask, stacked := BuildMasks(depth);
    Erode(mask, Radius);
    Erode(stacked, Radius);
    MultiplyByMask(blurred, mask);
  }
}
