/**
 * Pixel matrices as values: the abstract state of a `ColorImage` and of the grid the text
 * rasteriser returns. The three ways `ColorImage` changes its matrix (a single store, the
 * rectangle copy and the chroma-key composite) are defined here as functions, and the
 * properties that relate repeated calls are proved about them.
 */
module Grids {
  import opened ImageUtil

  /** A row-major matrix of packed pixels: one sequence per line of the image. */
  type Grid = seq<seq<bv32>>

  /** `g` is rectangular, `width` pixels wide and `height` lines high. */
  predicate IsGrid(g: Grid, width: nat, height: nat) {
    |g| == height && forall y :: 0 <= y < height ==> |g[y]| == width
  }

  /** The same number of lines, line for line of the same length. */
  predicate SameShape(a: Grid, b: Grid) {
    |a| == |b| && forall y :: 0 <= y < |a| ==> |a[y]| == |b[y]|
  }

  /**
   * `src` lies inside `dst` when both are anchored at the top-left corner. A line of `src`
   * with no pixel covers nothing, so it may lie below the last line of `dst`.
   */
  predicate Fits(src: Grid, dst: Grid) {
    forall y :: 0 <= y < |src| && |src[y]| > 0 ==> y < |dst| && |src[y]| <= |dst[y]|
  }

  /** Grids of the same shape that agree on every pixel are equal. */
  lemma SameGrid(a: Grid, b: Grid)
    requires SameShape(a, b)
    requires forall y, x :: 0 <= y < |a| && 0 <= x < |a[y]| ==> a[y][x] == b[y][x]
    ensures a == b
  {
    forall y | 0 <= y < |a|
      ensures a[y] == b[y]
    {
      assert forall x :: 0 <= x < |a[y]| ==> a[y][x] == b[y][x];
    }
  }

  /** The store `data[y][x] = v`: pixel (x, y) becomes `v` and no other pixel changes. */
  function SetPixel(g: Grid, x: nat, y: nat, v: bv32): (r: Grid)
    requires y < |g| && x < |g[y]|
    ensures SameShape(r, g)
    ensures r[y][x] == v
    ensures forall i, j :: 0 <= i < |g| && 0 <= j < |g[i]| && (i != y || j != x) ==> r[i][j] == g[i][j]
  {
    g[y := g[y][x := v]]
  }

  /** Storing the same value twice is storing it once. */
  lemma SetPixelIdempotent(g: Grid, x: nat, y: nat, v: bv32)
    requires y < |g| && x < |g[y]|
    ensures SetPixel(SetPixel(g, x, y, v), x, y, v) == SetPixel(g, x, y, v)
  {
    var once := SetPixel(g, x, y, v);
    SameGrid(SetPixel(once, x, y, v), once);
  }

  /**
   * One line of `Copy`: the first |src| pixels become those of `src` with the alpha byte
   * forced to 0xFF (the `setColor(getColor(...))` round trip), the rest of the line is kept.
   */
  function CopyRow(dst: seq<bv32>, src: seq<bv32>): (r: seq<bv32>)
    requires |src| <= |dst|
    ensures |r| == |dst|
    ensures forall x :: 0 <= x < |src| ==> r[x] == SetAlpha(src[x])
    ensures forall x :: |src| <= x < |dst| ==> r[x] == dst[x]
    decreases |src|
  {
    if src == [] then dst
    else [SetAlpha(src[0])] + CopyRow(dst[1..], src[1..])
  }

  /**
   * `Copy`: the top-left rectangle that `src` covers takes the pixels of `src`, alpha forced
   * to 0xFF; every pixel outside it keeps its value, and the shape does not change.
   */
  function CopyRegion(dst: Grid, src: Grid): (r: Grid)
    requires Fits(src, dst)
    ensures SameShape(r, dst)
    ensures forall y, x :: 0 <= y < |src| && 0 <= x < |src[y]| ==> r[y][x] == SetAlpha(src[y][x])
    ensures forall y, x :: 0 <= y < |dst| && 0 <= x < |dst[y]| && (y >= |src| || x >= |src[y]|) ==>
              r[y][x] == dst[y][x]
    decreases |src|
  {
    if src == [] || dst == [] then dst
    else [CopyRow(dst[0], src[0])] + CopyRegion(dst[1..], src[1..])
  }

  /** Copying the same image twice leaves what copying it once leaves. */
  lemma CopyRegionIdempotent(dst: Grid, src: Grid)
    requires Fits(src, dst)
    ensures Fits(src, CopyRegion(dst, src))
    ensures CopyRegion(CopyRegion(dst, src), src) == CopyRegion(dst, src)
  {
    var once := CopyRegion(dst, src);
    SameGrid(CopyRegion(once, src), once);
  }

  /** Copying an image of the same shape replaces every pixel: the old content is gone. */
  lemma CopyRegionSameShape(dst: Grid, dst': Grid, src: Grid)
    requires SameShape(src, dst) && SameShape(src, dst')
    ensures Fits(src, dst) && Fits(src, dst')
    ensures CopyRegion(dst, src) == CopyRegion(dst', src)
  {
    SameGrid(CopyRegion(dst, src), CopyRegion(dst', src));
  }

  /**
   * One line of the chroma-key composite: where the rendered pixel differs from the mask it
   * replaces the pixel, where it equals the mask the pixel is kept.
   */
  function CompositeRow(dst: seq<bv32>, aux: seq<bv32>, mask: bv32): (r: seq<bv32>)
    requires |aux| == |dst|
    ensures |r| == |dst|
    ensures forall x :: 0 <= x < |dst| && aux[x] != mask ==> r[x] == aux[x]
    ensures forall x :: 0 <= x < |dst| && aux[x] == mask ==> r[x] == dst[x]
    decreases |dst|
  {
    if dst == [] then []
    else [if aux[0] != mask then aux[0] else dst[0]] + CompositeRow(dst[1..], aux[1..], mask)
  }

  /** The chroma-key composite of a whole rendered grid onto an image of the same shape. */
  function Composite(dst: Grid, aux: Grid, mask: bv32): (r: Grid)
    requires SameShape(aux, dst)
    ensures SameShape(r, dst)
    ensures forall y, x :: 0 <= y < |dst| && 0 <= x < |dst[y]| && aux[y][x] != mask ==> r[y][x] == aux[y][x]
    ensures forall y, x :: 0 <= y < |dst| && 0 <= x < |dst[y]| && aux[y][x] == mask ==> r[y][x] == dst[y][x]
    decreases |dst|
  {
    if dst == [] then []
    else [CompositeRow(dst[0], aux[0], mask)] + Composite(dst[1..], aux[1..], mask)
  }

  /** Compositing the same rendered grid twice leaves what compositing it once leaves. */
  lemma CompositeIdempotent(dst: Grid, aux: Grid, mask: bv32)
    requires SameShape(aux, dst)
    ensures SameShape(aux, Composite(dst, aux, mask))
    ensures Composite(Composite(dst, aux, mask), aux, mask) == Composite(dst, aux, mask)
  {
    var once := Composite(dst, aux, mask);
    SameGrid(Composite(once, aux, mask), once);
  }

  /** A rendered grid that is all mask colour (no glyph pixel) leaves the image unchanged. */
  lemma CompositeBackgroundOnly(dst: Grid, aux: Grid, mask: bv32)
    requires SameShape(aux, dst)
    requires forall y, x :: 0 <= y < |aux| && 0 <= x < |aux[y]| ==> aux[y][x] == mask
    ensures Composite(dst, aux, mask) == dst
  {
    SameGrid(Composite(dst, aux, mask), dst);
  }

  /**
   * A rendered grid with no pixel equal to the mask replaces the image entirely; conversely a
   * glyph pixel that happens to equal the mask is dropped, since only the mask is looked at.
   */
  lemma CompositeNoBackground(dst: Grid, aux: Grid, mask: bv32)
    requires SameShape(aux, dst)
    requires forall y, x :: 0 <= y < |aux| && 0 <= x < |aux[y]| ==> aux[y][x] != mask
    ensures Composite(dst, aux, mask) == aux
  {
    SameGrid(Composite(dst, aux, mask), aux);
  }
}
