/**
 * The packed-pixel colour codec of the image framework (ImageUtil.java).
 *
 * A packed pixel is a Java `int`; it is modelled by its 32 bits, `bv32`, laid out as
 * 0xAARRGGBB, and `JavaInt` gives the signed value Java sees. Java's `>>` on `int` is an
 * arithmetic shift while `>>` on `bv32` is a logical one; the three colour-byte extractions
 * that mirror Java's `decodeRgb` shift by at most 16 and are followed by `& 0xFF`, so the
 * bits on which the two shifts disagree are masked away (`DecodeRgb` states the result
 * against Java's arithmetic reading). A channel crosses
 * between `int` and the packed bits as a `bv8`.
 *
 * Every IllegalArgumentException of the source is a `Failure` or `Fail` carrying the values
 * that its message shows.
 */
module ImageUtil {

  /** The IllegalArgumentException conditions, with the values their messages show. */
  datatype Error =
    | InvalidRgb(r: int, g: int, b: int)
    | InvalidValue(value: bv32, rgb: seq<int>)
    | InvalidFormat(format: string)

  datatype Result<T> = Success(value: T) | Failure(error: Error)

  datatype Outcome = Pass | Fail(error: Error)

  /** The alpha byte the encoder always sets: `255 << 24`. */
  const ALPHA: bv32 := 0xFF00_0000

  /** A packed pixel with its alpha byte forced to 0xFF and its colour bytes kept. */
  function SetAlpha(v: bv32): bv32 {
    v | ALPHA
  }

  /** The mask that keeps the three colour bytes of a packed pixel. */
  const RGB_BITS: bv32 := 0x00FF_FFFF

  /** `validRgbComponent`: the channel is one of the 256 values of an unsigned byte. */
  function ValidRgbComponent(value: int): (ok: bool)
    ensures ok <==> 0 <= value < 0x100
  {
    value >= 0 && value <= 255
  }

  /** `validRgb`: every one of the three channels is a valid component. */
  function ValidRgb(r: int, g: int, b: int): (ok: bool)
    ensures ok <==> 0 <= r < 0x100 && 0 <= g < 0x100 && 0 <= b < 0x100
  {
    ValidRgbComponent(r) && ValidRgbComponent(g) && ValidRgbComponent(b)
  }

  /** `validateRgb`: passes exactly when every channel lies in [0, 255]. */
  function ValidateRgb(r: int, g: int, b: int): (o: Outcome)
    ensures o.Pass? <==> 0 <= r <= 255 && 0 <= g <= 255 && 0 <= b <= 255
    ensures o.Fail? ==> o.error == InvalidRgb(r, g, b)
  {
    if !ValidRgb(r, g, b) then Fail(InvalidRgb(r, g, b)) else Pass
  }

  /** Bits 24..31, 16..23, 8..15 and 0..7 of a packed pixel, each as an unsigned byte. */
  function AlphaByte(v: bv32): bv8 { (v >> 24) as bv8 }
  function RedByte(v: bv32): bv8 { ((v >> 16) & 0xFF) as bv8 }
  function GreenByte(v: bv32): bv8 { ((v >> 8) & 0xFF) as bv8 }
  function BlueByte(v: bv32): bv8 { (v & 0xFF) as bv8 }

  /**
   * The value of a packed pixel as Java's signed 32-bit `int`: two's complement, so the top
   * byte weighs -128..127 and the other three 0..255.
   */
  function JavaInt(v: bv32): (n: int)
    ensures -0x8000_0000 <= n < 0x8000_0000
  {
    ByteBound(AlphaByte(v));
    ByteBound(RedByte(v));
    ByteBound(GreenByte(v));
    ByteBound(BlueByte(v));
    var top := AlphaByte(v) as int;
    (if top < 0x80 then top else top - 0x100) * 0x100_0000
      + RedByte(v) as int * 0x1_0000 + GreenByte(v) as int * 0x100 + BlueByte(v) as int
  }

  /** The packing expression `255 << 24 | r << 16 | g << 8 | b`, on channels that fit a byte. */
  function Pack(r: bv8, g: bv8, b: bv8): bv32 {
    ALPHA | ((r as bv32) << 16) | ((g as bv32) << 8) | (b as bv32)
  }

  lemma PackBytes(r: bv8, g: bv8, b: bv8)
    ensures AlphaByte(Pack(r, g, b)) == 0xFF
    ensures RedByte(Pack(r, g, b)) == r && GreenByte(Pack(r, g, b)) == g && BlueByte(Pack(r, g, b)) == b
  {
  }

  /**
   * `encodeRgb`: fails exactly on an invalid channel, reporting the three channels;
   * otherwise the channels are packed below an alpha byte of 0xFF (`EncodeLayout`).
   */
  function EncodeRgb(r: int, g: int, b: int): (res: Result<bv32>)
    ensures res.Failure? <==> !ValidRgb(r, g, b)
    ensures res.Failure? ==> res.error == InvalidRgb(r, g, b)
  {
    var o := ValidateRgb(r, g, b);
    if o.Fail? then Failure(o.error)
    else Success(Pack(ByteOf(r), ByteOf(g), ByteOf(b)))
  }

  /**
   * The layout of an encoded pixel: 0xFF in the top byte and r, g, b in the three bytes
   * below, so that as a Java `int` it is negative: 0xFFRRGGBB - 2^32.
   */
  lemma EncodeLayout(r: int, g: int, b: int)
    requires ValidRgb(r, g, b)
    ensures EncodeRgb(r, g, b).Success?
    ensures AlphaByte(EncodeRgb(r, g, b).value) == 0xFF
    ensures RedByte(EncodeRgb(r, g, b).value) as int == r
    ensures GreenByte(EncodeRgb(r, g, b).value) as int == g
    ensures BlueByte(EncodeRgb(r, g, b).value) as int == b
    ensures JavaInt(EncodeRgb(r, g, b).value) == r * 0x1_0000 + g * 0x100 + b - 0x100_0000 < 0
  {
    PackBytes(ByteOf(r), ByteOf(g), ByteOf(b));
    ByteOfValue(r);
    ByteOfValue(g);
    ByteOfValue(b);
  }

  /**
   * The byte holding a channel value of 0..255, counted up from zero. It stands for the cast
   * `x as bv8`, whose int-to-bit-vector translation makes the solver's effort on the codec
   * proofs vary widely from one run to the next; `ByteOfValue` gives its value.
   */
  function ByteOf(x: int): bv8
    requires 0 <= x < 0x100
  {
    if x == 0 then 0 else ByteOf(x - 1) + 1
  }

  lemma {:induction false} ByteOfValue(x: int)
    requires 0 <= x < 0x100
    ensures ByteOf(x) as int == x
  {
    if x > 0 {
      ByteOfValue(x - 1);
      ByteSucc(ByteOf(x - 1));
    }
  }

  lemma ByteSucc(b: bv8)
    requires b as int < 0xFF
    ensures (b + 1) as int == b as int + 1
  {
  }

  lemma ByteOfInverse(b: bv8)
    ensures ByteOf(b as int) == b
  {
    ByteOfValue(b as int);
  }

  /**
   * `decodeRgb`: red, green and blue are Java's `(value >> 16) & 0xFF`, `(value >> 8) & 0xFF`
   * and `value & 0xFF` on the signed value, that is floor division followed by the
   * non-negative remainder. The validity check after the extraction never fails, so decoding
   * always succeeds.
   */
  function DecodeRgb(value: bv32): (res: Result<seq<int>>)
    ensures res.Success?
    ensures |res.value| == 3 && ValidRgb(res.value[0], res.value[1], res.value[2])
    ensures res.value == [JavaInt(value) / 0x1_0000 % 0x100, JavaInt(value) / 0x100 % 0x100, JavaInt(value) % 0x100]
  {
    var rgb := [RedByte(value) as int, GreenByte(value) as int, BlueByte(value) as int];
    ShiftMask(value);
    if !ValidRgb(rgb[0], rgb[1], rgb[2]) then Failure(InvalidValue(value, rgb)) else Success(rgb)
  }

  /** The bytes of a packed pixel are the shift-and-mask results on its signed Java value. */
  lemma ShiftMask(v: bv32)
    ensures RedByte(v) as int == JavaInt(v) / 0x1_0000 % 0x100
    ensures GreenByte(v) as int == JavaInt(v) / 0x100 % 0x100
    ensures BlueByte(v) as int == JavaInt(v) % 0x100
  {
    var top, r, g, b := AlphaByte(v) as int, RedByte(v) as int, GreenByte(v) as int, BlueByte(v) as int;
    ByteBound(AlphaByte(v));
    ByteBound(RedByte(v));
    ByteBound(GreenByte(v));
    ByteBound(BlueByte(v));
    var h := if top < 0x80 then top else top - 0x100;
    assert JavaInt(v) == Weigh(h, r, g, b);
    ByteArithmetic(h, r, g, b);
    assert r == JavaInt(v) / 0x1_0000 % 0x100;
    assert g == JavaInt(v) / 0x100 % 0x100;
    assert b == JavaInt(v) % 0x100;
  }

  lemma ByteBound(x: bv8)
    ensures 0 <= x as int < 0x100
  {
  }

  /** A two's-complement value from its signed top byte and three unsigned lower bytes. */
  function Weigh(h: int, a: int, b: int, c: int): int {
    h * 0x100_0000 + a * 0x1_0000 + b * 0x100 + c
  }

  /** Floor division and remainder recover the low three bytes of a two's-complement value. */
  lemma ByteArithmetic(h: int, a: int, b: int, c: int)
    requires -0x80 <= h < 0x80 && 0 <= a < 0x100 && 0 <= b < 0x100 && 0 <= c < 0x100
    ensures Weigh(h, a, b, c) / 0x1_0000 % 0x100 == a
    ensures Weigh(h, a, b, c) / 0x100 % 0x100 == b
    ensures Weigh(h, a, b, c) % 0x100 == c
  {
    var n := Weigh(h, a, b, c);
    assert n / 0x1_0000 == h * 0x100 + a;
    assert (h * 0x100 + a) % 0x100 == a;
    assert n / 0x100 == h * 0x1_0000 + a * 0x100 + b;
    assert (h * 0x1_0000 + a * 0x100 + b) % 0x100 == b;
  }

  /** Decoding is the inverse of encoding: every valid triple comes back unchanged. */
  lemma RoundTrip(r: int, g: int, b: int)
    requires ValidRgb(r, g, b)
    ensures EncodeRgb(r, g, b).Success?
    ensures DecodeRgb(EncodeRgb(r, g, b).value) == Success([r, g, b])
  {
    EncodeLayout(r, g, b);
  }

  /** Decoding ignores the alpha byte: values that agree on bits 0..23 decode alike. */
  lemma DecodeIgnoresAlpha(v: bv32, w: bv32)
    requires v & RGB_BITS == w & RGB_BITS
    ensures DecodeRgb(v) == DecodeRgb(w)
  {
    MaskedBytes(v);
    MaskedBytes(w);
  }

  /** The colour bytes of a pixel are those of its lower 24 bits. */
  lemma MaskedBytes(v: bv32)
    ensures RedByte(v) == RedByte(v & RGB_BITS)
    ensures GreenByte(v) == GreenByte(v & RGB_BITS)
    ensures BlueByte(v) == BlueByte(v & RGB_BITS)
  {
  }

  /**
   * Decoding a packed pixel and encoding the triple again, as `readColorImage` does for each
   * pixel and `ColorImage.Copy` does through `getColor`/`setColor`: the colour bytes are
   * kept and the alpha byte is forced to 0xFF.
   */
  lemma Reencode(v: bv32)
    ensures EncodeRgb(DecodeRgb(v).value[0], DecodeRgb(v).value[1], DecodeRgb(v).value[2]) == Success(SetAlpha(v))
    ensures DecodeRgb(SetAlpha(v)) == DecodeRgb(v)
  {
    var rgb := DecodeRgb(v).value;
    assert rgb == [RedByte(v) as int, GreenByte(v) as int, BlueByte(v) as int];
    ByteOfInverse(RedByte(v));
    ByteOfInverse(GreenByte(v));
    ByteOfInverse(BlueByte(v));
    RepackBytes(v);
    DecodeIgnoresAlpha(v, v | ALPHA);
  }

  /** Packing the colour bytes of a pixel again sets its alpha byte and keeps the rest. */
  lemma RepackBytes(v: bv32)
    ensures Pack(RedByte(v), GreenByte(v), BlueByte(v)) == v | ALPHA
    ensures (v | ALPHA) & RGB_BITS == v & RGB_BITS
  {
  }

  /** The three alternatives of the pattern `gif|jpg|png`. */
  const FORMATS: seq<string> := ["gif", "jpg", "png"]

  /**
   * `String.matches` with a pattern made of literal alternatives: the WHOLE string must equal
   * one alternative, character by character (so case-sensitively).
   */
  predicate MatchesOneOf(s: string, alternatives: seq<string>) {
    exists i :: 0 <= i < |alternatives| && s == alternatives[i]
  }

  /**
   * The format check that `writeImage` makes before it builds any image: only the exact
   * strings "gif", "jpg" and "png" pass.
   */
  function CheckFormat(format: string): (o: Outcome)
    ensures o.Pass? <==> format == "gif" || format == "jpg" || format == "png"
    ensures o.Fail? ==> o.error == InvalidFormat(format)
  {
    assert FORMATS[0] == "gif" && FORMATS[1] == "jpg" && FORMATS[2] == "png";
    if !MatchesOneOf(format, FORMATS) then Fail(InvalidFormat(format))
    else Pass
  }

  /** The match is whole-string: an accepted name followed by anything more is refused. */
  lemma CheckFormatWholeString(format: string, suffix: string)
    requires CheckFormat(format).Pass? && suffix != []
    ensures CheckFormat(format + suffix).Fail?
  {
    assert |format + suffix| > 3;
  }

  /**
   * The pixel loop of `readColorImage`, given the flat row-major ARGB array that the image
   * reader returns for a width x height image: a running index walks the array while
   * `data[y][x]` is filled row by row with the pixel re-encoded through `encodeRgb`.
   */
  method ReadColorImage(pixels: array<bv32>, width: nat, height: nat) returns (data: array2<bv32>)
    requires pixels.Length == width * height
    ensures fresh(data)
    ensures data.Length0 == height && data.Length1 == width
    ensures forall y, x :: 0 <= y < height && 0 <= x < width ==>
              FlatIndex(y, x, width) < pixels.Length && data[y, x] == SetAlpha(pixels[FlatIndex(y, x, width)])
  {
    data := new bv32[height, width];
    var i := 0;
    for y := 0 to data.Length0
      invariant i == FlatIndex(y, 0, width)
      invariant forall y', x :: 0 <= y' < y && 0 <= x < width ==> FlatIndex(y', x, width) < pixels.Length && data[y', x] == SetAlpha(pixels[FlatIndex(y', x, width)])
    {
      for x := 0 to data.Length1
        invariant i == FlatIndex(y, x, width)
        invariant forall y', x' :: 0 <= y' < y && 0 <= x' < width ==> FlatIndex(y', x', width) < pixels.Length && data[y', x'] == SetAlpha(pixels[FlatIndex(y', x', width)])
        invariant forall x' :: 0 <= x' < x ==> FlatIndex(y, x', width) < pixels.Length && data[y, x'] == SetAlpha(pixels[FlatIndex(y, x', width)])
      {
        FlatIndexInRange(y, x, width, height);
        var v := pixels[i];
        i := i + 1;
        data[y, x] := RepackPixel(v);
      }
    }
  }

  /**
   * The body of the `readColorImage` loop for one pixel: split it into its colour bytes and
   * encode them again, which keeps the colour and sets the alpha byte.
   */
  method RepackPixel(v: bv32) returns (packed: bv32)
    ensures packed == SetAlpha(v)
  {
    var r := RedByte(v) as int;
    var g := GreenByte(v) as int;
    var b := BlueByte(v) as int;
    Reencode(v);
    packed := EncodeRgb(r, g, b).value;
  }

  /**
   * The position of pixel (x, y) in the flat row-major array of an image `width` wide. It is
   * counted row by row (`RowStart`) rather than multiplied out, which keeps the products
   * out of the loop proofs; `FlatIndexIsRowMajor` gives its value y * width + x.
   */
  function FlatIndex(y: nat, x: nat, width: nat): nat {
    RowStart(y, width) + x
  }

  /** The index at which row y starts: the lengths of the y rows before it, added up. */
  function RowStart(y: nat, width: nat): nat {
    if y == 0 then 0 else RowStart(y - 1, width) + width
  }

  lemma {:induction false} FlatIndexIsRowMajor(y: nat, x: nat, width: nat)
    ensures FlatIndex(y, x, width) == y * width + x
  {
    if y > 0 {
      FlatIndexIsRowMajor(y - 1, x, width);
    }
  }

  /** The running index of a row-major walk stays inside the flat array. */
  lemma FlatIndexInRange(y: nat, x: nat, width: nat, height: nat)
    requires y < height && x < width
    ensures FlatIndex(y, x, width) < width * height
  {
    RowStartMonotone(y + 1, height, width);
    FlatIndexIsRowMajor(height, 0, width);
  }

  /**
   * The walk uses every position of the flat array: position k is read for pixel
   * (k % width, k / width), which lies inside the image. With the loop's own contract this
   * gives that the running index ends at width * height.
   */
  lemma FlatIndexCovers(k: nat, width: nat, height: nat)
    requires k < width * height
    ensures width > 0 && k / width < height
    ensures FlatIndex(k / width, k % width, width) == k
  {
    assert width > 0;
    FlatIndexIsRowMajor(k / width, k % width, width);
    if k / width >= height {
      MulLeft(height, k / width, width);
    }
  }

  lemma MulLeft(a: nat, b: nat, c: nat)
    requires a <= b
    ensures a * c <= b * c
  {
  }

  lemma {:induction false} RowStartMonotone(y: nat, h: nat, width: nat)
    requires y <= h
    ensures RowStart(y, width) <= RowStart(h, width)
  {
    if y < h {
      RowStartMonotone(y, h - 1, width);
    }
  }
}
