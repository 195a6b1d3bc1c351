/**
 * The raster the toolkit hides bits in: a width x height grid of packed
 * 0xAARRGGBB pixels (Java's `BufferedImage.getRGB` view), plus the one
 * operation the algorithms use to change it. The cover-image writer
 * (`CoverImage.setPixelBit`) is not part of this model's source; it is given
 * here the behaviour the algorithms rely on: the addressed bit takes the new
 * value and no other bit of the image changes.
 */
module Raster {
  import opened Basics

  /** `BufferedImage.getType()`: the four types the toolkit distinguishes, and every other one. */
  datatype ImageType =
    | ByteBinary
    | ByteIndexed
    | ByteGray
    | UShortGray
    | OtherType(code: int)

  /** pixels[y][x] is the ARGB value, packed in one word, at column x, row y. */
  datatype Image = Image(width: int, height: int, kind: ImageType, pixels: seq<seq<bv32>>)
  {
    /**
     * A `BufferedImage` is never empty, its dimensions are Java `int`s and
     * every row has `width` pixels.
     */
    predicate Valid() {
      1 <= width < TWO_31 && 1 <= height < TWO_31 && |pixels| == height &&
      forall y :: 0 <= y < height ==> |pixels[y]| == width
    }

    predicate InBounds(x: int, y: int) {
      0 <= x < width && 0 <= y < height
    }

    function RGB(x: int, y: int): bv32
      requires Valid() && InBounds(x, y)
    {
      pixels[y][x]
    }
  }

  /**
   * The bit of a packed pixel that layer `layer`, bit `bitpos` names. Java
   * computes `layer * 8 + bitpos` as an int and a shift uses only its low five
   * bits.
   */
  function LayerPos(layer: int, bitpos: int): (k: bv32)
    ensures k < 32
    ensures 0 <= layer < 4 && 0 <= bitpos < 8 ==> k as int == layer * 8 + bitpos
    ensures 0 <= layer < 3 && 0 <= bitpos < 8 ==> k < 24
  {
    ShiftAmount((layer * 8 + bitpos) % 32)
  }

  /** A shift distance below 32 as a word. */
  function ShiftAmount(n: nat): (k: bv32)
    requires n < 32
    ensures k < 32 && k as int == n
  {
    if n == 0 then 0 else ShiftAmount(n - 1) + 1
  }

  /** Distinct (layer, bit) pairs of a pixel name distinct bits. */
  lemma {:induction false} LayerPosInjective(layer: int, bitpos: int, layer': int, bitpos': int)
    requires 0 <= layer < 4 && 0 <= bitpos < 8 && 0 <= layer' < 4 && 0 <= bitpos' < 8
    requires LayerPos(layer, bitpos) == LayerPos(layer', bitpos')
    ensures layer == layer' && bitpos == bitpos'
  {
  }

  /** Replaces one pixel. */
  function SetRGB(img: Image, x: int, y: int, p: bv32): (r: Image)
    requires img.Valid() && img.InBounds(x, y)
    ensures r.Valid() && r.width == img.width && r.height == img.height && r.kind == img.kind
    ensures r.RGB(x, y) == p
  {
    img.(pixels := img.pixels[y := img.pixels[y][x := p]])
  }

  /** Replacing one pixel leaves every other pixel as it was. */
  lemma {:induction false} SetRGBOther(img: Image, x: int, y: int, p: bv32, x': int, y': int)
    requires img.Valid() && img.InBounds(x, y) && img.InBounds(x', y') && (x', y') != (x, y)
    ensures SetRGB(img, x, y, p).RGB(x', y') == img.RGB(x', y')
  {
  }

  /** Sets bit k of a word to `bit`. */
  function SetBit(p: bv32, k: bv32, bit: bool): (r: bv32)
    requires k < 32
    ensures BitOf(r, k) == bit
  {
    SetBitSetsOwn(p, k, bit);
    if bit then p | ((1 as bv32) << k) else p & !((1 as bv32) << k)
  }

  /** Setting bit k of a word keeps its other bits. */
  lemma {:induction false} SetBitOther(p: bv32, k: bv32, bit: bool, j: bv32)
    requires k < 32 && j < 32 && j != k
    ensures BitOf(SetBit(p, k, bit), j) == BitOf(p, j)
  {
    if bit {
      OrOtherBit(p, k, j);
    } else {
      AndNotOtherBit(p, k, j);
    }
  }

  lemma {:induction false} SetBitSetsOwn(p: bv32, k: bv32, bit: bool)
    requires k < 32
    ensures BitOf(if bit then p | ((1 as bv32) << k) else p & !((1 as bv32) << k), k) == bit
  {
  }

  lemma {:induction false} OrOtherBit(p: bv32, k: bv32, j: bv32)
    requires k < 32 && j < 32 && j != k
    ensures BitOf(p | ((1 as bv32) << k), j) == BitOf(p, j)
  {
    assert ((1 as bv32) << k) & ((1 as bv32) << j) == 0;
  }

  lemma {:induction false} AndNotOtherBit(p: bv32, k: bv32, j: bv32)
    requires k < 32 && j < 32 && j != k
    ensures BitOf(p & !((1 as bv32) << k), j) == BitOf(p, j)
  {
    assert ((1 as bv32) << k) & ((1 as bv32) << j) == 0;
  }

  /** The cover-image writer: the addressed bit becomes `bit`. */
  function SetPixelBit(img: Image, x: int, y: int, layer: int, bitpos: int, bit: bool): (r: Image)
    requires img.Valid() && img.InBounds(x, y)
    ensures r.Valid() && r.width == img.width && r.height == img.height && r.kind == img.kind
    ensures BitOf(r.RGB(x, y), LayerPos(layer, bitpos)) == bit
  {
    SetRGB(img, x, y, SetBit(img.RGB(x, y), LayerPos(layer, bitpos), bit))
  }

  /** Writing one bit of a pixel keeps that pixel's other bits. */
  lemma {:induction false} SetPixelBitOtherBit(img: Image, x: int, y: int, layer: int, bitpos: int, bit: bool, j: bv32)
    requires img.Valid() && img.InBounds(x, y) && j < 32 && j != LayerPos(layer, bitpos)
    ensures BitOf(SetPixelBit(img, x, y, layer, bitpos, bit).RGB(x, y), j) == BitOf(img.RGB(x, y), j)
  {
    SetBitOther(img.RGB(x, y), LayerPos(layer, bitpos), bit, j);
  }

  /** Writing one bit of a pixel keeps every other pixel. */
  lemma {:induction false} SetPixelBitOtherPixel(img: Image, x: int, y: int, layer: int, bitpos: int, bit: bool,
                                                 x': int, y': int)
    requires img.Valid() && img.InBounds(x, y) && img.InBounds(x', y') && (x', y') != (x, y)
    ensures SetPixelBit(img, x, y, layer, bitpos, bit).RGB(x', y') == img.RGB(x', y')
  {
    SetRGBOther(img, x, y, SetBit(img.RGB(x, y), LayerPos(layer, bitpos), bit), x', y');
  }

  /** Writing one bit of a pixel that a mask does not cover keeps the masked part of that pixel. */
  lemma {:induction false} SetPixelBitOutsideMask(img: Image, x: int, y: int, layer: int, bitpos: int, bit: bool,
                                                  mask: bv32)
    requires img.Valid() && img.InBounds(x, y) && !BitOf(mask, LayerPos(layer, bitpos))
    ensures SetPixelBit(img, x, y, layer, bitpos, bit).RGB(x, y) & mask == img.RGB(x, y) & mask
  {
    SetBitOutsideMask(img.RGB(x, y), LayerPos(layer, bitpos), bit, mask);
  }

  /** Setting a bit that a mask does not cover leaves the masked part of the word alone. */
  lemma {:induction false} SetBitOutsideMask(p: bv32, k: bv32, bit: bool, mask: bv32)
    requires k < 32 && !BitOf(mask, k)
    ensures SetBit(p, k, bit) & mask == p & mask
  {
  }
}
