/**
 * What every hiding algorithm of the toolkit shares: a shot names one bit of
 * the image; a message is embedded as a 32-bit length header written least
 * significant bit first followed by the message's bits; decoding reads the
 * header most significant bit first, reverses it, turns the byte count into
 * a bit count and rejects implausible lengths. All arithmetic is Java's 32-bit
 * `int` arithmetic.
 */
module Protocol {
  import opened Basics
  import opened Bits
  import opened Raster
  import opened StegoImage
  import opened InsertableMessage

  /** `new Shot(x, y, bitpos, layer)`: one bit of one colour layer of one pixel. */
  datatype Shot = Shot(x: int, y: int, bitPos: int, layer: int)

  /** The bit of the image a shot addresses. */
  function Addr(s: Shot): (int, int, bv32)
  {
    (s.x, s.y, LayerPos(s.layer, s.bitPos))
  }

  predicate DistinctAddresses(shots: seq<Shot>)
  {
    forall i, j :: 0 <= i < j < |shots| ==> Addr(shots[i]) != Addr(shots[j])
  }

  predicate AllInBounds(img: Image, shots: seq<Shot>)
  {
    forall i :: 0 <= i < |shots| ==> img.InBounds(shots[i].x, shots[i].y)
  }

  // ----- Java int arithmetic on the header -----

  lemma {:induction false} I32Congruent(u: int, v: int, k: int)
    requires u == v + TWO_32 * k
    ensures I32(u) == I32(v)
  {
    ModOfDecomposition(u, TWO_32, v / TWO_32 + k, v % TWO_32);
  }

  /** The multiple of 2^32 by which I32 moves its argument. */
  lemma {:induction false} I32Offset(a: int) returns (k: int)
    ensures a == I32(a) + TWO_32 * k
  {
    k := (a - I32(a)) / TWO_32;
  }

  /** `acc << 1 | bit` on a Java int. */
  function ShiftIn(acc: int, bit: bool): int
  {
    I32(2 * acc + (if bit then 1 else 0))
  }

  /** Shifting bits into a wrapped accumulator is reading them most significant first. */
  lemma {:induction false} ShiftInMsb(bits: seq<bool>, bit: bool)
    ensures ShiftIn(I32(FromMsb(bits)), bit) == I32(FromMsb(bits + [bit]))
  {
    FromMsbAppend(bits, bit);
    ShiftInCongruent(FromMsb(bits), if bit then 1 else 0);
  }

  lemma {:induction false} ShiftInCongruent(a: int, c: int)
    ensures I32(2 * I32(a) + c) == I32(2 * a + c)
  {
    var k := I32Offset(a);
    I32Congruent(2 * a + c, 2 * I32(a) + c, 2 * k);
  }

  /** `((x >> j) & 1) == 1` on a Java int: bit j of its two's-complement form. */
  function JavaBit(x: int, j: nat): bool
    requires j < 32
  {
    ((x % TWO_32) / Pow2(j)) % 2 == 1
  }

  /** The header encode writes for a message of `size` bytes, low bit first. */
  function HeaderBits(size: int): (s: seq<bool>)
    ensures |s| == 32
  {
    ToLsb(size % TWO_32, 32)
  }

  /** Header bit i is bit i of the int `size`, as `(size >> i) & 1` reads it. */
  lemma {:induction false} HeaderBitAt(size: int, i: nat)
    requires i < 32
    ensures HeaderBits(size)[i] == JavaBit(size, i)
  {
    ToLsbBit(size % TWO_32, 32, i);
  }

  /** The int whose bit i is bits[i]. */
  function HeaderValue(bits: seq<bool>): int
    requires |bits| == 32
  {
    I32(FromLsb(bits))
  }

  /** Decoding the header recovers the int that was written. */
  lemma {:induction false} HeaderRoundTrip(size: int)
    ensures HeaderValue(HeaderBits(size)) == I32(size)
  {
    Pow2Values();
    FromLsbToLsb(size % TWO_32, 32);
    I32Congruent(size, size % TWO_32, size / TWO_32);
  }

  /** Distinct headers decode to distinct ints: any 32 bits are the header of their value. */
  lemma {:induction false} HeaderBitsOfValue(bits: seq<bool>)
    requires |bits| == 32
    ensures HeaderBits(HeaderValue(bits)) == bits
  {
    Pow2Values();
    var v := FromLsb(bits);
    var k := I32Offset(v);
    ModOfDecomposition(I32(v), TWO_32, -k, v);
    ToLsbFromLsb(bits);
  }

  /**
   * The decode loop `size = size << 1 | bit` over 32 bits leaves the bits
   * read most significant first.
   */
  lemma {:induction false} ReadSizeBits(bits: seq<bool>, size: int)
    requires |bits| == 32 && size == I32(FromMsb(bits))
    ensures size % TWO_32 == FromMsb(bits)
  {
    Pow2Values();
    var v := FromMsb(bits);
    ModOfDecomposition(size, TWO_32, if size < 0 then -1 else 0, v);
  }

  /**
   * The reversal loop of every decode:
   * `for j in 0..31: size2 = size2 << 1 | ((size >> j) & 1)`.
   * If `size` was assembled most significant bit first from the 32 bits read,
   * `size2` is the int whose bit i is the i-th bit read.
   */
  method ReverseHeader(size: int, ghost bits: seq<bool>) returns (size2: int)
    requires |bits| == 32 && size == I32(FromMsb(bits))
    ensures size2 == HeaderValue(bits)
  {
    var h := HeaderBits(size);
    size2 := 0;
    for j := 0 to 32
      invariant size2 == I32(FromMsb(h[..j]))
    {
      assert h[..j + 1] == h[..j] + [h[j]];
      HeaderBitAt(size, j);
      ShiftInMsb(h[..j], h[j]);
      size2 := ShiftIn(size2, JavaBit(size, j));
    }
    assert h[..32] == h;
    ReadSizeBits(bits, size);
    Pow2Values();
    FromLsbReverse(bits);
    ToLsbFromLsb(Reverse(bits));
    assert h == Reverse(bits);
    FromMsbReverse(bits);
  }

  /**
   * Everything encode embeds: the header for the message's size, then the
   * message bits not yet delivered by the message stream.
   */
  function EncodedBits(file: seq<Byte>, delivered: nat): (bits: seq<bool>)
    requires delivered <= 8 * |file|
    ensures |bits| == 32 + (8 * |file| - delivered)
  {
    HeaderBits(I32(|file|)) + MessageBits(file)[delivered..]
  }

  /** The first 32 bits are the bits of the message size. */
  lemma {:induction false} EncodedHeaderBit(file: seq<Byte>, delivered: nat, i: nat)
    requires delivered <= 8 * |file| && i < 32
    ensures EncodedBits(file, delivered)[i] == JavaBit(I32(|file|), i)
  {
    HeaderBitAt(I32(|file|), i);
  }

  /** After the header come the message bits, from the first one not yet delivered. */
  lemma {:induction false} EncodedMessageBit(file: seq<Byte>, delivered: nat, d: nat)
    requires delivered <= d < 8 * |file|
    ensures EncodedBits(file, delivered)[32 + (d - delivered)] == MessageBits(file)[d]
  {
    ConcatSuffixIndex(HeaderBits(I32(|file|)), MessageBits(file), delivered, d - delivered);
  }

  /**
   * `message.nextBit()` in the message loop of encode: the bit of the
   * embedded stream that follows the header and the message bits that were
   * delivered before.
   */
  method NextEncodedBit(message: InsertableMessage, ghost file: seq<Byte>, ghost delivered: nat) returns (bit: bool)
    requires message.Valid() && message.file == file && !message.finished && delivered <= message.Delivered()
    modifies message
    ensures message.Valid() && message.file == file && message.Delivered() == old(message.Delivered()) + 1
    ensures old(message.Delivered()) < 8 * |file|
    ensures bit == EncodedBits(file, delivered)[32 + (old(message.Delivered()) - delivered)]
  {
    ghost var d := message.Delivered();
    var r := message.NextBit();
    EncodedMessageBit(file, delivered, d);
    bit := r.value;
  }

  // ----- capacity -----

  /** `((W * H) * layers) * bitsPerPixel` in int arithmetic, widened to long afterwards. */
  function ImageSpace(width: int, height: int, layers: int, bpp: int): int
  {
    I32(I32(I32(width * height) * layers) * bpp)
  }

  /** `((int) size * 8) + 50`: the bits a message of `size` bytes needs, with headroom. */
  function MessageSpace(size: int): int
  {
    I32(I32(I32(size) * 8) + 50)
  }

  /** willMessageFit. */
  predicate WillMessageFit(size: int, width: int, height: int, layers: int, bpp: int)
  {
    MessageSpace(size) <= ImageSpace(width, height, layers, bpp)
  }

  /** `size2 * 8`: the number of message bits the header announces. */
  function BodyLength(size: int): int
  {
    I32(size * 8)
  }

  /** The NoMessage test of decode. */
  predicate Implausible(length: int, space: int)
  {
    length >= space || length < 0
  }

  /** Without overflow, the fit test is 8 * size + 50 <= W * H * layers * bpp. */
  lemma {:induction false} WillMessageFitMeaning(size: nat, width: nat, height: nat, layers: nat, bpp: nat)
    requires 8 * size + 50 < TWO_31
    requires width * height < TWO_31 && width * height * layers < TWO_31
    requires width * height * layers * bpp < TWO_31
    ensures WillMessageFit(size, width, height, layers, bpp) <==>
            8 * size + 50 <= width * height * layers * bpp
  {
    ImageSpaceExact(width, height, layers, bpp);
    MessageSpaceExact(size);
  }

  /** Without overflow the image space is the plain product. */
  lemma {:induction false} ImageSpaceExact(width: nat, height: nat, layers: nat, bpp: nat)
    requires width * height < TWO_31 && width * height * layers < TWO_31
    requires width * height * layers * bpp < TWO_31
    ensures ImageSpace(width, height, layers, bpp) == width * height * layers * bpp
  {
    var a := width * height;
    var b := a * layers;
    var c := b * bpp;
    assert 0 <= a && 0 <= b && 0 <= c;
    assert I32(a) == a;
    assert I32(b) == b;
    assert I32(c) == c;
  }

  /** Without overflow the message space is 8 * size + 50. */
  lemma {:induction false} MessageSpaceExact(size: nat)
    requires 8 * size + 50 < TWO_31
    ensures MessageSpace(size) == 8 * size + 50
  {
    assert I32(size) == size;
    assert I32(size * 8) == size * 8;
  }

  /** A message that passes the fit test passes decode's plausibility test. */
  lemma {:induction false} FittingLengthIsPlausible(size: nat, width: nat, height: nat, layers: nat, bpp: nat)
    requires 8 * size + 50 < TWO_31
    requires width * height < TWO_31 && width * height * layers < TWO_31
    requires width * height * layers * bpp < TWO_31
    requires WillMessageFit(size, width, height, layers, bpp)
    ensures BodyLength(I32(size)) == 8 * size
    ensures !Implausible(BodyLength(I32(size)), ImageSpace(width, height, layers, bpp))
  {
    ImageSpaceExact(width, height, layers, bpp);
    MessageSpaceExact(size);
    assert I32(size) == size;
    assert I32(size * 8) == size * 8;
  }

  // ----- writing and reading a sequence of shots -----

  /** Sets the bits one shot after another; a shot outside the image is an exception. */
  function WriteBits(img: Image, shots: seq<Shot>, bits: seq<bool>): (r: Result<Image>)
    requires img.Valid() && |shots| == |bits|
    ensures r.Success? <==> AllInBounds(img, shots)
    ensures r.Failure? ==> r.error == Crash
    ensures r.Success? ==> r.value.Valid() && r.value.width == img.width &&
                           r.value.height == img.height && r.value.kind == img.kind
    decreases |shots|
  {
    if shots == [] then Success(img)
    else
      var n := |shots| - 1;
      match WriteBits(img, shots[..n], bits[..n])
      case Failure(e) => Failure(e)
      case Success(im) =>
        var s := shots[n];
        if im.InBounds(s.x, s.y) then Success(SetPixelBit(im, s.x, s.y, s.layer, s.bitPos, bits[n]))
        else Failure(Crash)
  }

  /** Reads the bits one shot after another; a shot outside the image is an exception. */
  function ReadBits(img: Image, shots: seq<Shot>): (r: Result<seq<bool>>)
    requires img.Valid()
    ensures r.Success? <==> AllInBounds(img, shots)
    ensures r.Failure? ==> r.error == Crash
    ensures r.Success? ==> |r.value| == |shots|
    decreases |shots|
  {
    if shots == [] then Success([])
    else
      var n := |shots| - 1;
      match ReadBits(img, shots[..n])
      case Failure(e) => Failure(e)
      case Success(bs) =>
        var s := shots[n];
        match GetPixelBit(StegoImage(img), s.x, s.y, s.layer, s.bitPos)
        case Failure(e) => Failure(e)
        case Success(b) => Success(bs + [b == 1])
  }

  lemma {:induction false} ReadBitsPrefix(img: Image, shots: seq<Shot>, k: nat)
    requires img.Valid() && AllInBounds(img, shots) && k <= |shots|
    ensures ReadBits(img, shots[..k]).Success?
    ensures ReadBits(img, shots[..k]).value == ReadBits(img, shots).value[..k]
    decreases |shots|
  {
    if k < |shots| {
      var n := |shots| - 1;
      ReadBitsPrefix(img, shots[..n], k);
      assert shots[..n][..k] == shots[..k];
    } else {
      assert shots[..k] == shots;
    }
  }

  /** What one address reads after a sequence of writes to distinct addresses. */
  lemma {:induction false} ReadAfterWriteAt(img: Image, shots: seq<Shot>, bits: seq<bool>, i: nat)
    requires img.Valid() && |shots| == |bits| && AllInBounds(img, shots) && DistinctAddresses(shots)
    requires i < |shots|
    ensures GetPixelBit(StegoImage(WriteBits(img, shots, bits).value), shots[i].x, shots[i].y,
                        shots[i].layer, shots[i].bitPos) == Success(if bits[i] then 1 else 0)
    decreases |shots|
  {
    var n := |shots| - 1;
    var im := WriteBits(img, shots[..n], bits[..n]).value;
    var s := shots[n];
    if i == n {
      GetAfterSet(im, s.x, s.y, s.layer, s.bitPos, bits[n]);
    } else {
      ReadAfterWriteAt(img, shots[..n], bits[..n], i);
      assert Addr(shots[i]) != Addr(s);
      GetAfterSetOther(im, s.x, s.y, s.layer, s.bitPos, bits[n],
                       shots[i].x, shots[i].y, shots[i].layer, shots[i].bitPos);
    }
  }

  lemma {:induction false} ReadBitsAll(img: Image, shots: seq<Shot>, bits: seq<bool>)
    requires img.Valid() && |shots| == |bits| && AllInBounds(img, shots)
    requires forall i :: 0 <= i < |shots| ==>
      GetPixelBit(StegoImage(img), shots[i].x, shots[i].y, shots[i].layer, shots[i].bitPos)
        == Success(if bits[i] then 1 else 0)
    ensures ReadBits(img, shots) == Success(bits)
    decreases |shots|
  {
    if shots != [] {
      var n := |shots| - 1;
      ReadBitsAll(img, shots[..n], bits[..n]);
      assert bits[..n] + [bits[n]] == bits;
    }
  }

  /** Bits written at distinct in-bounds addresses are read back unchanged. */
  lemma {:induction false} ReadAfterWrite(img: Image, shots: seq<Shot>, bits: seq<bool>)
    requires img.Valid() && |shots| == |bits| && AllInBounds(img, shots) && DistinctAddresses(shots)
    ensures WriteBits(img, shots, bits).Success?
    ensures ReadBits(WriteBits(img, shots, bits).value, shots) == Success(bits)
  {
    var w := WriteBits(img, shots, bits).value;
    forall i | 0 <= i < |shots|
      ensures GetPixelBit(StegoImage(w), shots[i].x, shots[i].y, shots[i].layer, shots[i].bitPos)
              == Success(if bits[i] then 1 else 0)
    {
      ReadAfterWriteAt(img, shots, bits, i);
    }
    ReadBitsAll(w, shots, bits);
  }

  /** Writes that avoid the bits of a mask leave every pixel's masked part unchanged. */
  lemma {:induction false} WriteBitsKeepsMask(img: Image, shots: seq<Shot>, bits: seq<bool>, mask: bv32)
    requires img.Valid() && |shots| == |bits| && AllInBounds(img, shots)
    requires forall i :: 0 <= i < |shots| ==> !BitOf(mask, LayerPos(shots[i].layer, shots[i].bitPos))
    ensures forall x, y :: img.InBounds(x, y) ==>
              WriteBits(img, shots, bits).value.RGB(x, y) & mask == img.RGB(x, y) & mask
    decreases |shots|
  {
    if shots != [] {
      var n := |shots| - 1;
      WriteBitsKeepsMask(img, shots[..n], bits[..n], mask);
      var im := WriteBits(img, shots[..n], bits[..n]).value;
      var s := shots[n];
      SetPixelBitKeepsMask(im, s, bits[n], mask);
    }
  }

  /** Setting a bit outside a mask leaves every pixel's masked part unchanged. */
  lemma {:induction false} SetPixelBitKeepsMask(im: Image, s: Shot, bit: bool, mask: bv32)
    requires im.Valid() && im.InBounds(s.x, s.y) && !BitOf(mask, LayerPos(s.layer, s.bitPos))
    ensures forall x, y :: im.InBounds(x, y) ==>
              SetPixelBit(im, s.x, s.y, s.layer, s.bitPos, bit).RGB(x, y) & mask == im.RGB(x, y) & mask
  {
    forall x, y | im.InBounds(x, y)
      ensures SetPixelBit(im, s.x, s.y, s.layer, s.bitPos, bit).RGB(x, y) & mask == im.RGB(x, y) & mask
    {
      SetPixelBitKeepsMaskAt(im, s, bit, mask, x, y);
    }
  }

  /** SetPixelBitKeepsMask at one pixel. */
  lemma {:induction false} SetPixelBitKeepsMaskAt(im: Image, s: Shot, bit: bool, mask: bv32, x: int, y: int)
    requires im.Valid() && im.InBounds(s.x, s.y) && im.InBounds(x, y) && !BitOf(mask, LayerPos(s.layer, s.bitPos))
    ensures SetPixelBit(im, s.x, s.y, s.layer, s.bitPos, bit).RGB(x, y) & mask == im.RGB(x, y) & mask
  {
    if x == s.x && y == s.y {
      SetPixelBitOutsideMask(im, s.x, s.y, s.layer, s.bitPos, bit, mask);
    } else {
      SetPixelBitOtherPixel(im, s.x, s.y, s.layer, s.bitPos, bit, x, y);
    }
  }

  /** A prefix of an in-bounds write is a successful write. */
  lemma {:induction false} WriteBitsAppend(img: Image, shots: seq<Shot>, bits: seq<bool>, s: Shot, b: bool)
    requires img.Valid() && |shots| == |bits|
    ensures WriteBits(img, shots + [s], bits + [b]) ==
            match WriteBits(img, shots, bits)
            case Failure(e) => Failure(e)
            case Success(im) =>
              if im.InBounds(s.x, s.y) then Success(SetPixelBit(im, s.x, s.y, s.layer, s.bitPos, b))
              else Failure(Crash)
  {
    assert (shots + [s])[..|shots|] == shots;
    assert (bits + [b])[..|bits|] == bits;
  }

  lemma {:induction false} ReadBitsAppend(img: Image, shots: seq<Shot>, s: Shot)
    requires img.Valid()
    ensures ReadBits(img, shots + [s]) ==
            match ReadBits(img, shots)
            case Failure(e) => Failure(e)
            case Success(bs) =>
              match GetPixelBit(StegoImage(img), s.x, s.y, s.layer, s.bitPos)
              case Failure(e) => Failure(e)
              case Success(v) => Success(bs + [v == 1])
  {
    assert (shots + [s])[..|shots|] == shots;
  }

  /** Reading two runs of shots is reading the first and then the second. */
  lemma {:induction false} ReadBitsConcat(img: Image, a: seq<Shot>, b: seq<Shot>)
    requires img.Valid() && AllInBounds(img, a + b)
    ensures AllInBounds(img, a) && AllInBounds(img, b)
    ensures ReadBits(img, a + b).value == ReadBits(img, a).value + ReadBits(img, b).value
    decreases |b|
  {
    AllInBoundsSplit(img, a, b);
    if b == [] {
      assert a + b == a;
    } else {
      var n := |b| - 1;
      var s := b[n];
      assert a + b == (a + b[..n]) + [s];
      assert b == b[..n] + [s];
      AllInBoundsSplit(img, a, b[..n]);
      ReadBitsConcat(img, a, b[..n]);
      ReadBitsAppend(img, a + b[..n], s);
      ReadBitsAppend(img, b[..n], s);
    }
  }

  /** Both parts of a run of in-bounds shots are in bounds. */
  lemma {:induction false} AllInBoundsSplit(img: Image, a: seq<Shot>, b: seq<Shot>)
    requires AllInBounds(img, a + b)
    ensures AllInBounds(img, a) && AllInBounds(img, b)
  {
    assert forall i :: 0 <= i < |a| ==> (a + b)[i] == a[i];
    assert forall i :: 0 <= i < |b| ==> (a + b)[|a| + i] == b[i];
  }

  /** One more in-bounds write. */
  lemma {:induction false} WriteStep(img: Image, shots: seq<Shot>, written: seq<bool>, cur: Image, s: Shot, b: bool)
    requires img.Valid() && |shots| == |written|
    requires WriteBits(img, shots, written) == Success(cur) && cur.InBounds(s.x, s.y)
    ensures WriteBits(img, shots + [s], written + [b]) == Success(SetPixelBit(cur, s.x, s.y, s.layer, s.bitPos, b))
  {
    WriteBitsAppend(img, shots, written, s, b);
  }

  /** One more read. */
  lemma {:induction false} ReadStep(img: Image, shots: seq<Shot>, prev: seq<bool>, s: Shot, v: int)
    requires img.Valid() && ReadBits(img, shots) == Success(prev)
    requires GetPixelBit(StegoImage(img), s.x, s.y, s.layer, s.bitPos) == Success(v)
    ensures ReadBits(img, shots + [s]) == Success(prev + [v == 1])
  {
    ReadBitsAppend(img, shots, s);
  }

  /**
   * The round trip of every algorithm: header and body bits written at the
   * header's shots followed by the body's shots, all distinct and in the
   * image, are read back from those shots.
   */
  lemma {:induction false} WriteThenReadParts(img: Image, hs: seq<Shot>, bs: seq<Shot>, header: seq<bool>, body: seq<bool>)
    requires img.Valid() && |hs| == |header| && |bs| == |body|
    requires AllInBounds(img, hs + bs) && DistinctAddresses(hs + bs)
    ensures WriteBits(img, hs + bs, header + body).Success?
    ensures ReadBits(WriteBits(img, hs + bs, header + body).value, hs) == Success(header)
    ensures ReadBits(WriteBits(img, hs + bs, header + body).value, bs) == Success(body)
  {
    ReadAfterWrite(img, hs + bs, header + body);
    var w := WriteBits(img, hs + bs, header + body).value;
    ReadBitsConcat(w, hs, bs);
    var rh := ReadBits(w, hs).value;
    var rb := ReadBits(w, bs).value;
    assert |rh| == |header|;
    assert rh + rb == header + body;
    assert rh == (rh + rb)[..|header|] == header;
    assert rb == (rh + rb)[|header|..] == body;
  }
}
