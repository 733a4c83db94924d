/**
 * The `ColorImage` pixel buffer (ColorImage.java): a matrix of packed pixels that is changed
 * in place, per pixel through the codec, by a rectangle copy, or by chroma-key compositing of
 * a text label.
 *
 * The Java `int[][]` is an `array2<bv32>` (rectangular; its first dimension is the height,
 * its second the width). The ghost `Pixels()` reads the array as a `Grid` value, and every
 * method that changes the array states its new `Pixels()` through a function of module
 * `Grids`.
 */
module ColorImages {
  import opened ImageUtil
  import opened Grids

  /**
   * The framework's `Color`: three channel values, read back with `getR`, `getG` and `getB`
   * (here the destructors `r`, `g` and `b`). The Java class is not shown; it is modelled as
   * three unbounded integers, and nothing is assumed about its own validation.
   */
  datatype Color = Color(r: int, g: int, b: int)

  predicate ValidColor(c: Color) {
    ValidRgb(c.r, c.g, c.b)
  }

  /**
   * The mask colour of `drawText`: every channel inverted. It is valid exactly when the text
   * colour is, and it is never the text colour itself (255 is odd).
   */
  function MaskColor(c: Color): (m: Color)
    ensures ValidColor(m) <==> ValidColor(c)
    ensures m != c
  {
    Color(255 - c.r, 255 - c.g, 255 - c.b)
  }

  /** What `getColor` builds from a packed pixel: the decoded triple, always a valid colour. */
  function ColorOf(v: bv32): (c: Color)
    ensures ValidColor(c)
    ensures EncodeRgb(c.r, c.g, c.b) == Success(SetAlpha(v))
  {
    var rgb := DecodeRgb(v).value;
    Reencode(v);
    Color(rgb[0], rgb[1], rgb[2])
  }

  /** A colour stored through `encodeRgb` is read back unchanged. */
  lemma ColorRoundTrip(c: Color)
    requires ValidColor(c)
    ensures EncodeRgb(c.r, c.g, c.b).Success?
    ensures ColorOf(EncodeRgb(c.r, c.g, c.b).value) == c
  {
    RoundTrip(c.r, c.g, c.b);
  }

  /** The alpha byte of a pixel does not change the colour read from it. */
  lemma ColorOfIgnoresAlpha(v: bv32)
    ensures ColorOf(SetAlpha(v)) == ColorOf(v)
  {
    Reencode(v);
  }

  /** A pixel copied by `Copy` reads back as the colour it was copied from. */
  lemma CopyKeepsColors(dst: Grid, src: Grid)
    requires Fits(src, dst)
    ensures forall y, x :: 0 <= y < |src| && 0 <= x < |src[y]| ==>
              ColorOf(CopyRegion(dst, src)[y][x]) == ColorOf(src[y][x])
  {
    forall y, x | 0 <= y < |src| && 0 <= x < |src[y]|
      ensures ColorOf(CopyRegion(dst, src)[y][x]) == ColorOf(src[y][x])
    {
      ColorOfIgnoresAlpha(src[y][x]);
    }
  }

  /** The zero pixel of a fresh matrix reads as black. */
  lemma ColorOfZero()
    ensures ColorOf(0) == Color(0, 0, 0)
  {
    assert JavaInt(0) == 0;
  }

  /** The packed mask colour against which the text is rendered and then keyed out. */
  function MaskKey(c: Color): (k: bv32)
    requires ValidColor(c)
    ensures AlphaByte(k) == 0xFF
    ensures ColorOf(k) == MaskColor(c)
  {
    var m := MaskColor(c);
    EncodeLayout(m.r, m.g, m.b);
    ColorRoundTrip(m);
    EncodeRgb(m.r, m.g, m.b).value
  }

  /**
   * The chroma key never removes a pixel painted exactly in the text colour: the packed mask
   * differs from the packed text colour. (A glyph pixel of any other colour that happens to
   * equal the mask is still dropped.)
   */
  lemma MaskKeyIsNotTextColor(c: Color)
    requires ValidColor(c)
    ensures EncodeRgb(c.r, c.g, c.b).Success?
    ensures MaskKey(c) != EncodeRgb(c.r, c.g, c.b).value
  {
    var m := MaskColor(c);
    ColorRoundTrip(c);
    ColorRoundTrip(m);
  }

  /**
   * The arguments of `createColorImageWithText`: the size of the grid to produce, its
   * background colour, the anchor point, the text, the font size, the text colour and
   * whether the text is centred on the anchor.
   */
  datatype TextRequest = TextRequest(
    width: nat, height: nat, background: Color,
    x: int, y: int, text: string, size: int, color: Color, centered: bool)

  /** The promise of the text rasteriser: a rectangular grid of exactly the requested size. */
  ghost predicate FullSize(render: TextRequest -> Grid) {
    forall req :: IsGrid(render(req), req.width, req.height)
  }

  /** The matrix of an array, line by line. */
  ghost function GridOf(a: array2<bv32>): (g: Grid)
    reads a
    ensures IsGrid(g, a.Length1, a.Length0)
    ensures forall y, x :: 0 <= y < a.Length0 && 0 <= x < a.Length1 ==> g[y][x] == a[y, x]
  {
    seq(a.Length0, y requires 0 <= y < a.Length0 reads a =>
      seq(a.Length1, x requires 0 <= x < a.Length1 reads a => a[y, x]))
  }

  /** An array whose cells agree with a grid of its shape reads as that grid. */
  lemma GridOfMatches(a: array2<bv32>, g: Grid)
    requires IsGrid(g, a.Length1, a.Length0)
    requires forall y, x :: 0 <= y < a.Length0 && 0 <= x < a.Length1 ==> a[y, x] == g[y][x]
    ensures GridOf(a) == g
  {
    SameGrid(GridOf(a), g);
  }

  class ColorImage {
    /** The lines of the image: `data.Length0` is the height, `data.Length1` the width. */
    var data: array2<bv32>

    /** The abstract state: the pixel matrix as a value. */
    ghost function Pixels(): (g: Grid)
      reads this, data
      ensures IsGrid(g, data.Length1, data.Length0)
      ensures forall y, x :: 0 <= y < data.Length0 && 0 <= x < data.Length1 ==> g[y][x] == data[y, x]
    {
      GridOf(data)
    }

    /** `ColorImage(width, height)`: a new matrix of zero pixels, which read as black. */
    constructor Blank(width: nat, height: nat)
      ensures fresh(data)
      ensures data.Length0 == height && data.Length1 == width
      ensures IsGrid(Pixels(), width, height)
      ensures forall y, x :: 0 <= y < height && 0 <= x < width ==> Pixels()[y][x] == 0
      ensures forall y, x :: 0 <= y < height && 0 <= x < width ==> GetColor(x, y) == Color(0, 0, 0)
    {
      data := new bv32[height, width]((_, _) => 0);
      ColorOfZero();
    }

    /** `ColorImage(int[][] data)`: wraps the caller's matrix, which the two then share. */
    constructor Wrap(grid: array2<bv32>)
      ensures data == grid
      ensures Pixels() == GridOf(grid)
    {
      data := grid;
    }

    /**
     * `ColorImage(width, height, color)`: a blank image whose pixels are then set column by
     * column. The first `setColor` throws on an invalid colour, unless the image has no
     * column, in which case no pixel is set and nothing is checked.
     */
    static method Filled(width: nat, height: nat, color: Color) returns (res: Result<ColorImage>)
      requires height >= 1
      ensures res.Failure? <==> width >= 1 && !ValidColor(color)
      ensures res.Failure? ==> res.error == InvalidRgb(color.r, color.g, color.b)
      ensures res.Success? ==> fresh(res.value) && fresh(res.value.data)
      ensures res.Success? ==> res.value.GetHeight() == height && res.value.GetWidth() == width
      ensures res.Success? ==> forall y, x :: 0 <= y < height && 0 <= x < width ==>
                res.value.GetColor(x, y) == color
      ensures res.Success? ==> forall y, x :: 0 <= y < height && 0 <= x < width ==>
                ValidColor(color) && res.value.data[y, x] == EncodeRgb(color.r, color.g, color.b).value
    {
      var img := new ColorImage.Blank(width, height);
      ghost var d := img.data;
      ghost var key: bv32 := if ValidColor(color) then EncodeRgb(color.r, color.g, color.b).value else 0;
      for x := 0 to img.GetWidth()
        invariant img.data == d && fresh(d)
        invariant x > 0 ==> ValidColor(color)
        invariant forall y', x' :: 0 <= y' < height && 0 <= x' < x ==> d[y', x'] == key
      {
        for y := 0 to img.GetHeight()
          invariant img.data == d
          invariant x > 0 || y > 0 ==> ValidColor(color)
          invariant forall y', x' :: 0 <= y' < height && 0 <= x' < x ==> d[y', x'] == key
          invariant forall y' :: 0 <= y' < y ==> d[y', x] == key
        {
          var o := img.SetColor(x, y, color);
          if o.Fail? {
            return Failure(o.error);
          }
        }
      }
      forall y, x | 0 <= y < height && 0 <= x < width
        ensures img.GetColor(x, y) == color
      {
        ColorRoundTrip(color);
      }
      return Success(img);
    }

    /** `getWidth`: the length of the first line; the matrix needs at least one line. */
    function GetWidth(): (w: nat)
      requires data.Length0 >= 1
      reads this, data
      ensures w == |Pixels()[0]|
    {
      data.Length1
    }

    /** `getHeight`: the number of lines. */
    function GetHeight(): (h: nat)
      reads this, data
      ensures h == |Pixels()|
    {
      data.Length0
    }

    /**
     * `setColor(x, y, c)`: encodes `c` and stores it at line y, column x. Java selects line y
     * first, then encodes, and checks the column only at the store, so an invalid colour
     * throws (and nothing changes) whatever the column is; otherwise only pixel (x, y)
     * changes and it reads back as `c`.
     */
    method SetColor(x: int, y: nat, c: Color) returns (o: Outcome)
      requires y < data.Length0
      requires 0 <= x < data.Length1 || !ValidColor(c)
      modifies data
      ensures o.Pass? <==> ValidColor(c)
      ensures o.Fail? ==> o.error == InvalidRgb(c.r, c.g, c.b) && unchanged(data)
      ensures o.Pass? ==> Pixels() == SetPixel(old(Pixels()), x, y, EncodeRgb(c.r, c.g, c.b).value)
      ensures o.Pass? ==> GetColor(x, y) == c
      ensures o.Pass? ==> data[y, x] == EncodeRgb(c.r, c.g, c.b).value
      ensures forall i, j :: 0 <= i < data.Length0 && 0 <= j < data.Length1 && (i != y || j != x) ==>
                data[i, j] == old(data[i, j])
    {
      var packed := EncodeRgb(c.r, c.g, c.b);
      if packed.Failure? {
        return Fail(packed.error);
      }
      ghost var before := Pixels();
      data[y, x] := packed.value;
      SameGrid(Pixels(), SetPixel(before, x, y, packed.value));
      ColorRoundTrip(c);
      o := Pass;
    }

    /**
     * `getColor(x, y)`: decodes the pixel at line y, column x. The result is always a valid
     * colour, and encoding it gives the stored pixel with its alpha byte set.
     */
    function GetColor(x: nat, y: nat): (c: Color)
      requires y < data.Length0 && x < data.Length1
      reads this, data
      ensures ValidColor(c)
      ensures EncodeRgb(c.r, c.g, c.b) == Success(SetAlpha(Pixels()[y][x]))
    {
      ColorOf(data[y, x])
    }

    /**
     * `Copy(c)`: sets every pixel of the rectangle `c` covers to the colour `c` has there,
     * line by line. The image must be at least as large as `c`, except when `c` has no line or
     * no column: then no pixel is read or written and nothing changes. `c` may be this very
     * image.
     */
    method Copy(c: ColorImage)
      requires c.data.Length0 == 0 || c.data.Length1 == 0 || (c.data.Length0 <= data.Length0 && c.data.Length1 <= data.Length1)
      modifies data
      ensures Fits(old(c.Pixels()), old(Pixels()))
      ensures Pixels() == CopyRegion(old(Pixels()), old(c.Pixels()))
    {
      ghost var source := old(c.Pixels());
      ghost var target := CopyRegion(old(Pixels()), source);
      for y := 0 to c.GetHeight()
        invariant forall i, j :: 0 <= i < y && 0 <= j < c.data.Length1 ==> data[i, j] == target[i][j]
        invariant forall i, j :: y <= i < c.data.Length0 && 0 <= j < c.data.Length1 ==> c.data[i, j] == source[i][j]
        invariant forall i, j :: 0 <= i < data.Length0 && 0 <= j < data.Length1 && (i >= c.data.Length0 || j >= c.data.Length1)
                    ==> data[i, j] == target[i][j]
      {
        CopyLine(c, y);
      }
      GridOfMatches(data, target);
    }

    /**
     * The inner loop of `Copy`: line y of the rectangle `c` covers takes the colours of line y
     * of `c`; no other pixel changes.
     */
    method CopyLine(c: ColorImage, y: nat)
      requires y < c.data.Length0
      requires c.data.Length1 == 0 || (c.data.Length0 <= data.Length0 && c.data.Length1 <= data.Length1)
      modifies data
      ensures forall j :: 0 <= j < c.data.Length1 ==> data[y, j] == SetAlpha(old(c.data[y, j]))
      ensures forall i, j :: 0 <= i < data.Length0 && 0 <= j < data.Length1 && (i != y || j >= c.data.Length1) ==>
                data[i, j] == old(data[i, j])
    {
      for x := 0 to c.GetWidth()
        invariant forall j :: 0 <= j < x ==> data[y, j] == SetAlpha(old(c.data[y, j]))
        invariant forall j :: x <= j < c.data.Length1 ==> c.data[y, j] == old(c.data[y, j])
        invariant forall i, j :: 0 <= i < data.Length0 && 0 <= j < data.Length1 && (i != y || j >= x) ==>
                    data[i, j] == old(data[i, j])
      {
        var color := c.GetColor(x, y);
        var o := SetColor(x, y, color);
      }
    }

    /** The arguments `drawText` hands to the rasteriser: this image's size and the mask. */
    function Request(x: int, y: int, text: string, size: int, color: Color, centered: bool): TextRequest
      requires data.Length0 >= 1
      reads this, data
    {
      TextRequest(GetWidth(), GetHeight(), MaskColor(color), x, y, text, size, color, centered)
    }

    /**
     * The private `drawText`: computes the mask colour and encodes it (which throws, before
     * anything is rendered, exactly when the text colour is invalid), has the text rendered
     * on a mask-coloured grid of this image's size, and copies every rendered pixel that
     * differs from the mask into the image.
     */
    method DrawTextAligned(x: int, y: int, text: string, size: int, color: Color, centered: bool,
                           render: TextRequest -> Grid) returns (o: Outcome)
      requires data.Length0 >= 1 || !ValidColor(color)
      requires FullSize(render)
      modifies data
      ensures o.Pass? <==> ValidColor(color)
      ensures o.Fail? ==> o.error == InvalidRgb(255 - color.r, 255 - color.g, 255 - color.b)
      ensures o.Fail? ==> unchanged(data)
      ensures o.Pass? ==> SameShape(render(Request(x, y, text, size, color, centered)), old(Pixels()))
      ensures o.Pass? ==> Pixels() == Composite(old(Pixels()), render(Request(x, y, text, size, color, centered)), MaskKey(color))
    {
      var maskColor := MaskColor(color);
      var encodedMask := EncodeRgb(maskColor.r, maskColor.g, maskColor.b);
      if encodedMask.Failure? {
        return Fail(encodedMask.error);
      }
      var mask := encodedMask.value;
      var request := Request(x, y, text, size, color, centered);
      var aux := render(request);
      assert IsGrid(aux, request.width, request.height);
      ghost var before := old(Pixels());
      ghost var target := Composite(before, aux, mask);
      for i := 0 to |aux|
        invariant forall k, j :: 0 <= k < i && 0 <= j < data.Length1 ==> data[k, j] == target[k][j]
        invariant forall k, j :: i <= k < data.Length0 && 0 <= j < data.Length1 ==> data[k, j] == old(data[k, j])
      {
        CompositeLine(i, aux[i], mask);
      }
      GridOfMatches(data, target);
      o := Pass;
    }

    /**
     * The inner loop of the private `drawText`: every pixel of line y whose rendered value
     * differs from the mask takes that value; no other pixel changes.
     */
    method CompositeLine(y: nat, line: seq<bv32>, mask: bv32)
      requires y < data.Length0 && |line| == data.Length1
      modifies data
      ensures forall j :: 0 <= j < |line| ==> data[y, j] == if line[j] != mask then line[j] else old(data[y, j])
      ensures forall i, j :: 0 <= i < data.Length0 && 0 <= j < data.Length1 && i != y ==> data[i, j] == old(data[i, j])
    {
      for x := 0 to |line|
        invariant forall j :: 0 <= j < x ==> data[y, j] == if line[j] != mask then line[j] else old(data[y, j])
        invariant forall i, j :: 0 <= i < data.Length0 && 0 <= j < data.Length1 && (i != y || j >= x) ==>
                    data[i, j] == old(data[i, j])
      {
        var value := line[x];
        if value != mask {
          data[y, x] := value;
        }
      }
    }

    /** `drawText(x, y, text, size, color)`: the text placed at the anchor, not centred. */
    method DrawText(x: int, y: int, text: string, size: int, color: Color,
                    render: TextRequest -> Grid) returns (o: Outcome)
      requires data.Length0 >= 1 || !ValidColor(color)
      requires FullSize(render)
      modifies data
      ensures o.Pass? <==> ValidColor(color)
      ensures o.Fail? ==> o.error == InvalidRgb(255 - color.r, 255 - color.g, 255 - color.b)
      ensures o.Fail? ==> unchanged(data)
      ensures o.Pass? ==> SameShape(render(Request(x, y, text, size, color, false)), old(Pixels()))
      ensures o.Pass? ==> Pixels() == Composite(old(Pixels()), render(Request(x, y, text, size, color, false)), MaskKey(color))
    {
      o := DrawTextAligned(x, y, text, size, color, false, render);
    }

    /** `drawCenteredText(x, y, text, size, color)`: the text centred on the anchor. */
    method DrawCenteredText(x: int, y: int, text: string, size: int, color: Color,
                            render: TextRequest -> Grid) returns (o: Outcome)
      requires data.Length0 >= 1 || !ValidColor(color)
      requires FullSize(render)
      modifies data
      ensures o.Pass? <==> ValidColor(color)
      ensures o.Fail? ==> o.error == InvalidRgb(255 - color.r, 255 - color.g, 255 - color.b)
      ensures o.Fail? ==> unchanged(data)
      ensures o.Pass? ==> SameShape(render(Request(x, y, text, size, color, true)), old(Pixels()))
      ensures o.Pass? ==> Pixels() == Composite(old(Pixels()), render(Request(x, y, text, size, color, true)), MaskKey(color))
    {
      o := DrawTextAligned(x, y, text, size, color, true, render);
    }
  }
}
