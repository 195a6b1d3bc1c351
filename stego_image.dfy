/**
 * `StegoImage`: an image that may hold a hidden message. It wraps a raster,
 * reports how many colour layers its pixel type offers, and reads single
 * bits out of its pixels.
 */
module StegoImage {
  import opened Basics
  import opened Raster

  datatype StegoImage = StegoImage(image: Image)
  {
    predicate Valid() {
      image.Valid()
    }
  }

  /** The constructor: a null image is a NullPointerException. */
  function NewStegoImage(image: Option<Image>): (r: Result<StegoImage>)
    ensures r.Failure? <==> image.None?
    ensures r.Failure? ==> r.error == NullImage
    ensures r.Success? ==> GetImage(r.value) == image.value
  {
    if image.None? then Failure(NullImage) else Success(StegoImage(image.value))
  }

  /** getImage. */
  function GetImage(s: StegoImage): Image
  {
    s.image
  }

  /**
   * getLayerCount: 0 for binary images (1, 2 or 4 bits per pixel), 1 for the
   * 8-bit indexed and grey-scale types, 3 for every other type.
   */
  function GetLayerCount(s: StegoImage): (n: int)
    ensures n == 0 <==> s.image.kind == ByteBinary
    ensures n == 1 <==> s.image.kind in {ByteIndexed, ByteGray, UShortGray}
    ensures n == 0 || n == 1 || n == 3
  {
    match s.image.kind
    case ByteBinary => 0
    case ByteIndexed => 1
    case ByteGray => 1
    case UShortGray => 1
    case OtherType(_) => 3
  }

  /**
   * getPixelBit: bit `layer * 8 + bitpos` of the pixel word at (x, y), as 0
   * or 1. A coordinate outside the image is an out-of-bounds exception.
   */
  function GetPixelBit(s: StegoImage, x: int, y: int, layer: int, bitpos: int): (r: Result<int>)
    requires s.Valid()
    ensures r.Success? <==> s.image.InBounds(x, y)
    ensures r.Failure? ==> r.error == Crash
    ensures r.Success? ==> (r.value == 0 || r.value == 1) &&
                           (r.value == 1 <==> BitOf(s.image.RGB(x, y), LayerPos(layer, bitpos)))
  {
    if !s.image.InBounds(x, y) then Failure(Crash)
    else
      var pixel := s.image.RGB(x, y);
      var k := LayerPos(layer, bitpos);
      ShiftedBit(pixel, k);
      Success(if (pixel >> k) & 1 == 1 then 1 else 0)
  }

  lemma {:induction false} ShiftedBit(p: bv32, k: bv32)
    requires k < 32
    ensures ((p >> k) & 1 == 1) == BitOf(p, k)
    ensures (p >> k) & 1 == 0 || (p >> k) & 1 == 1
  {
  }

  /** Reading a bit just written gives that bit back. */
  lemma {:induction false} GetAfterSet(img: Image, x: int, y: int, layer: int, bitpos: int, bit: bool)
    requires img.Valid() && img.InBounds(x, y)
    ensures GetPixelBit(StegoImage(SetPixelBit(img, x, y, layer, bitpos, bit)), x, y, layer, bitpos)
            == Success(if bit then 1 else 0)
  {
  }

  /** Writing one bit does not change what any other address reads. */
  lemma {:induction false} GetAfterSetOther(img: Image, x: int, y: int, layer: int, bitpos: int, bit: bool,
                         x': int, y': int, layer': int, bitpos': int)
    requires img.Valid() && img.InBounds(x, y)
    requires (x', y', LayerPos(layer', bitpos')) != (x, y, LayerPos(layer, bitpos))
    ensures GetPixelBit(StegoImage(SetPixelBit(img, x, y, layer, bitpos, bit)), x', y', layer', bitpos')
            == GetPixelBit(StegoImage(img), x', y', layer', bitpos')
  {
    if img.InBounds(x', y') {
      if (x', y') != (x, y) {
        SetPixelBitOtherPixel(img, x, y, layer, bitpos, bit, x', y');
      } else {
        SetPixelBitOtherBit(img, x, y, layer, bitpos, bit, LayerPos(layer', bitpos'));
      }
    }
  }

  /**
   * For a colour layer (0..2) and a bit position 0..7 the bit read lies among
   * the 24 colour bits: replacing the pixel by one that differs only in its
   * alpha byte does not change the bit.
   */
  lemma {:induction false} PixelBitIgnoresAlpha(s: StegoImage, x: int, y: int, layer: int, bitpos: int, p: bv32)
    requires s.Valid() && s.image.InBounds(x, y)
    requires p & 0x00FF_FFFF == s.image.RGB(x, y) & 0x00FF_FFFF
    requires 0 <= layer < 3 && 0 <= bitpos < 8
    ensures GetPixelBit(StegoImage(SetRGB(s.image, x, y, p)), x, y, layer, bitpos) ==
            GetPixelBit(s, x, y, layer, bitpos)
  {
    var t := StegoImage(SetRGB(s.image, x, y, p));
    ColourBit(s.image.RGB(x, y), p, LayerPos(layer, bitpos));
    PixelBitValue(s, x, y, layer, bitpos);
    PixelBitValue(t, x, y, layer, bitpos);
  }

  lemma {:induction false} PixelBitValue(s: StegoImage, x: int, y: int, layer: int, bitpos: int)
    requires s.Valid() && s.image.InBounds(x, y)
    ensures GetPixelBit(s, x, y, layer, bitpos) ==
            Success(if BitOf(s.image.RGB(x, y), LayerPos(layer, bitpos)) then 1 else 0)
  {
  }

  lemma {:induction false} ColourBit(p: bv32, q: bv32, k: bv32)
    requires k < 24 && p & 0x00FF_FFFF == q & 0x00FF_FFFF
    ensures BitOf(p, k) == BitOf(q, k)
  {
    assert ((1 as bv32) << k) & 0x00FF_FFFF == (1 as bv32) << k;
  }
}
