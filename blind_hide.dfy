/**
 * BlindHide: the message is written in raster order. A counter walks every
 * bit position of a pixel, then its three colour layers, then the pixels of
 * a row, then the rows; encode, decode and the simulation all restart the
 * counter at 0, so they visit the same addresses.
 */
module BlindHide {
  import opened Basics
  import opened Bits
  import opened Raster
  import opened StegoImage
  import opened Protocol
  import opened InsertableMessage
  import opened RetrievedMessage
  import opened Simulation

  /** The bit ranges the constructor accepts: 0 <= start <= end <= 6. */
  predicate ValidRange(start: int, end: int)
  {
    0 <= start <= end <= 6
  }

  /** Bits per pixel, `(end - start) + 1`. */
  function BitsPerPixel(start: int, end: int): int
  {
    (end - start) + 1
  }

  /**
   * getShot for counter value k: null once the counter exceeds
   * `height * width * bpp * 3` (int arithmetic); otherwise the counter is
   * split into bit, layer, column and row.
   */
  function ShotAt(k: nat, width: int, height: int, bpp: int): Option<Shot>
    requires width >= 1 && bpp >= 1
  {
    if I32(I32(I32(height * width) * bpp) * 3) < k then None
    else
      var rangeUpTo := k % (bpp * 3);
      var q := (k - rangeUpTo) / (bpp * 3);
      var x := q % width;
      var y := I32((q - x) / width);
      Some(Shot(x, y, rangeUpTo % bpp, (rangeUpTo - rangeUpTo % bpp) / bpp))
  }

  /** None of the first n calls returns null. */
  predicate NoNullShot(n: nat, width: int, height: int, bpp: int)
    requires width >= 1 && bpp >= 1
  {
    forall k: nat :: k < n ==> ShotAt(k, width, height, bpp).Some?
  }

  /** The shots of calls number `from` up to `to` - 1. */
  function ShotRange(from: nat, to: nat, width: int, height: int, bpp: int): (s: seq<Shot>)
    requires width >= 1 && bpp >= 1 && from <= to && NoNullShot(to, width, height, bpp)
    ensures |s| == to - from
    ensures forall i :: 0 <= i < |s| ==> Some(s[i]) == ShotAt(from + i, width, height, bpp)
  {
    seq(to - from, i requires 0 <= i < to - from => ShotAt(from + i, width, height, bpp).value)
  }

  lemma {:induction false} ShotRangeSnoc(from: nat, to: nat, width: int, height: int, bpp: int)
    requires width >= 1 && bpp >= 1 && from <= to && NoNullShot(to + 1, width, height, bpp)
    ensures ShotRange(from, to + 1, width, height, bpp) ==
            ShotRange(from, to, width, height, bpp) + [ShotAt(to, width, height, bpp).value]
  {
  }

  lemma {:induction false} ShotRangeSplit(mid: nat, to: nat, width: int, height: int, bpp: int)
    requires width >= 1 && bpp >= 1 && mid <= to && NoNullShot(to, width, height, bpp)
    ensures ShotRange(0, to, width, height, bpp) ==
            ShotRange(0, mid, width, height, bpp) + ShotRange(mid, to, width, height, bpp)
  {
  }

  /** The number of addresses the counter can name: W * H * 3 * bpp. */
  function Addresses(width: int, height: int, bpp: int): int
  {
    height * width * bpp * 3
  }

  lemma {:induction false} NoOverflowLimit(width: int, height: int, bpp: int)
    requires width >= 1 && height >= 1 && bpp >= 1 && Addresses(width, height, bpp) < TWO_31
    ensures I32(I32(I32(height * width) * bpp) * 3) == Addresses(width, height, bpp)
    ensures height < TWO_31
  {
    assert height * width <= height * width * bpp;
    assert height <= height * width;
  }

  lemma {:induction false} DivModFacts(a: nat, d: int)
    requires d >= 1
    ensures a == d * (a / d) + a % d && 0 <= a % d < d
    ensures (a - a % d) / d == a / d
  {
    ModOfDecomposition(a - a % d, d, a / d, 0);
  }

  /**
   * Below the limit the k-th shot is in the image, uses a colour layer 0..2
   * and a bit position 0..bpp-1 (the start bit is not added), and its fields
   * spell k in the mixed radix (row, column, layer, bit).
   */
  lemma {:induction false} ShotInRange(k: nat, width: int, height: int, bpp: int)
    requires width >= 1 && height >= 1 && 1 <= bpp
    requires Addresses(width, height, bpp) < TWO_31 && k < Addresses(width, height, bpp)
    ensures ShotAt(k, width, height, bpp).Some?
    ensures var s := ShotAt(k, width, height, bpp).value;
            0 <= s.x < width && 0 <= s.y < height && 0 <= s.layer < 3 && 0 <= s.bitPos < bpp &&
            k == ((s.y * width + s.x) * 3 + s.layer) * bpp + s.bitPos
  {
    NoOverflowLimit(width, height, bpp);
    ShotFields(k, width, height, bpp);
    Digits(k, width, height, bpp);
  }

  /** The mixed-radix digits of a counter below W * H * 3 * bpp. */
  lemma {:induction false} Digits(k: nat, width: int, height: int, bpp: int)
    requires width >= 1 && height >= 1 && 1 <= bpp
    requires k < Addresses(width, height, bpp)
    ensures var q := k / (bpp * 3);
            var r := k % (bpp * 3);
            0 <= q / width < height && 0 <= q % width < width && 0 <= r / bpp < 3 && 0 <= r % bpp < bpp &&
            k == ((q / width * width + q % width) * 3 + r / bpp) * bpp + r % bpp
  {
    var m := bpp * 3;
    QuotNonNegative(k, m);
    var q := k / m;
    var r := k % m;
    assert Addresses(width, height, bpp) == m * (width * height);
    DivModFacts(k, m);
    QuotBound(k, m, width * height);
    QuotNonNegative(q, width);
    DivModFacts(q, width);
    QuotBound(q, width, height);
    QuotNonNegative(r, bpp);
    DivModFacts(r, bpp);
    QuotBound(r, bpp, 3);
    Radix(k, m, q, r, width, q / width, q % width, bpp, r / bpp, r % bpp);
  }

  /** The fields of a non-null shot, with Java's subtract-then-divide simplified. */
  lemma {:induction false} ShotFields(k: nat, width: int, height: int, bpp: int)
    requires width >= 1 && bpp >= 1 && ShotAt(k, width, height, bpp).Some?
    ensures ShotAt(k, width, height, bpp).value ==
            Shot((k / (bpp * 3)) % width, I32((k / (bpp * 3)) / width),
                 (k % (bpp * 3)) % bpp, (k % (bpp * 3)) / bpp)
  {
    var m := bpp * 3;
    SubDiv(k, m);
    QuotNonNegative(k, m);
    SubDiv(k / m, width);
    SubDiv(k % m, bpp);
  }

  lemma {:induction false} QuotNonNegative(a: nat, d: int)
    requires d >= 1
    ensures a / d >= 0
  {
    DivModFacts(a, d);
    if a / d < 0 {
      MulMono(d, a / d, -1);
      assert false;
    }
  }

  /** Java's `(a - a % d) / d` is the quotient. */
  lemma {:induction false} SubDiv(a: nat, d: int)
    requires d >= 1
    ensures (a - a % d) / d == a / d
  {
    DivModFacts(a, d);
  }

  lemma {:induction false} Radix(k: int, m: int, q: int, r: int, width: int, y: int, x: int, bpp: int, layer: int, bit: int)
    requires m == bpp * 3 && k == m * q + r && q == width * y + x && r == bpp * layer + bit
    ensures k == ((y * width + x) * 3 + layer) * bpp + bit
  {
  }

  /** A quotient of something below m * c is below c. */
  lemma {:induction false} QuotBound(k: nat, m: int, c: int)
    requires m >= 1 && k < m * c
    ensures k / m < c
  {
    DivModFacts(k, m);
    if k / m >= c {
      MulMono(m, c, k / m);
      assert false;
    }
  }

  lemma {:induction false} MulMono(m: int, a: int, b: int)
    requires m >= 1 && a <= b
    ensures m * a <= m * b
  {
  }

  /** Below the limit no two calls of getShot name the same bit of the image. */
  lemma {:induction false} ShotsInjective(k1: nat, k2: nat, width: int, height: int, bpp: int)
    requires width >= 1 && height >= 1 && 1 <= bpp <= 7
    requires Addresses(width, height, bpp) < TWO_31
    requires k1 < Addresses(width, height, bpp) && k2 < Addresses(width, height, bpp) && k1 != k2
    ensures Addr(ShotAt(k1, width, height, bpp).value) != Addr(ShotAt(k2, width, height, bpp).value)
  {
    ShotInRange(k1, width, height, bpp);
    ShotInRange(k2, width, height, bpp);
    var s1 := ShotAt(k1, width, height, bpp).value;
    var s2 := ShotAt(k2, width, height, bpp).value;
    if Addr(s1) == Addr(s2) {
      LayerPosInjective(s1.layer, s1.bitPos, s2.layer, s2.bitPos);
      assert false;
    }
  }

  /** The first n shots, n within the limit, are in bounds and pairwise distinct. */
  lemma {:induction false} ShotsUsable(n: nat, img: Image, bpp: int)
    requires img.Valid() && 1 <= bpp <= 7
    requires Addresses(img.width, img.height, bpp) < TWO_31 && n <= Addresses(img.width, img.height, bpp)
    ensures NoNullShot(n, img.width, img.height, bpp)
    ensures AllInBounds(img, ShotRange(0, n, img.width, img.height, bpp))
    ensures DistinctAddresses(ShotRange(0, n, img.width, img.height, bpp))
  {
    forall k: nat | k < n
      ensures ShotAt(k, img.width, img.height, bpp).Some?
    {
      ShotInRange(k, img.width, img.height, bpp);
    }
    var s := ShotRange(0, n, img.width, img.height, bpp);
    forall i | 0 <= i < n
      ensures img.InBounds(s[i].x, s[i].y)
    {
      ShotInRange(i, img.width, img.height, bpp);
    }
    forall i, j | 0 <= i < j < n
      ensures Addr(s[i]) != Addr(s[j])
    {
      ShotsInjective(i, j, img.width, img.height, bpp);
    }
  }

  // ----- what encode, decode and the simulation compute -----

  function Layers(img: Image): int
  {
    GetLayerCount(StegoImage(img))
  }

  /**
   * encode: refuse a message that does not fit; otherwise write the 32-bit
   * size header and then the message bits still to be delivered (all of them
   * for a fresh message), one shot each.
   */
  function EncodeSpec(img: Image, file: seq<Byte>, delivered: nat, start: int, end: int): Result<StegoImage>
    requires img.Valid() && ValidRange(start, end) && delivered <= 8 * |file|
  {
    var bpp := BitsPerPixel(start, end);
    if !WillMessageFit(|file|, img.width, img.height, Layers(img), bpp) then Failure(IllegalArgument)
    else
      var bits := EncodedBits(file, delivered);
      if !NoNullShot(|bits|, img.width, img.height, bpp) then Failure(Crash)
      else
        match WriteBits(img, ShotRange(0, |bits|, img.width, img.height, bpp), bits)
        case Failure(e) => Failure(e)
        case Success(w) => Success(StegoImage(w))
  }

  /**
   * decode: read 32 header bits, turn the size into a bit count, reject an
   * implausible count, read that many bits and pack them into bytes.
   */
  function DecodeSpec(s: StegoImage, start: int, end: int): Result<seq<Byte>>
    requires s.Valid() && ValidRange(start, end)
  {
    var img := s.image;
    var bpp := BitsPerPixel(start, end);
    if !NoNullShot(32, img.width, img.height, bpp) then Failure(Crash)
    else
      match ReadBits(img, ShotRange(0, 32, img.width, img.height, bpp))
      case Failure(e) => Failure(e)
      case Success(header) =>
        var length := BodyLength(HeaderValue(header));
        if Implausible(length, ImageSpace(img.width, img.height, GetLayerCount(s), bpp)) then
          Failure(NoMessage)
        else if !NoNullShot(32 + length, img.width, img.height, bpp) then Failure(Crash)
        else
          match ReadBits(img, ShotRange(32, 32 + length, img.width, img.height, bpp))
          case Failure(e) => Failure(e)
          case Success(body) => Success(Pack(body))
  }

  /**
   * outputSimulation: refuse a message that does not fit; otherwise black out
   * the image and lighten the pixel of every shot encode would make.
   */
  function SimulationSpec(img: Image, size: nat, delivered: nat, start: int, end: int): Result<Image>
    requires img.Valid() && ValidRange(start, end) && delivered <= 8 * size
  {
    var bpp := BitsPerPixel(start, end);
    if !WillMessageFit(size, img.width, img.height, Layers(img), bpp) then Failure(IllegalArgument)
    else
      SimulationRun(img, 32 + (8 * size - delivered), bpp)
  }

  /** Blacken the image, then lighten the pixel of each of the first n shots. */
  function SimulationRun(img: Image, n: nat, bpp: int): Result<Image>
    requires img.Valid() && 1 <= bpp
  {
    if !NoNullShot(n, img.width, img.height, bpp) then Failure(Crash)
    else Mark(Blacken(img), ShotRange(0, n, img.width, img.height, bpp))
  }

  /** The simulation fails exactly when encode does, and for the same reason. */
  lemma {:induction false} SimulationMatchesEncode(img: Image, file: seq<Byte>, delivered: nat, start: int, end: int)
    requires img.Valid() && ValidRange(start, end) && delivered <= 8 * |file|
    ensures SimulationSpec(img, |file|, delivered, start, end).Success? <==>
            EncodeSpec(img, file, delivered, start, end).Success?
    ensures SimulationSpec(img, |file|, delivered, start, end).Failure? ==>
            SimulationSpec(img, |file|, delivered, start, end).error ==
            EncodeSpec(img, file, delivered, start, end).error
  {
    var bpp := BitsPerPixel(start, end);
    var bits := EncodedBits(file, delivered);
    if NoNullShot(|bits|, img.width, img.height, bpp) {
      var shots := ShotRange(0, |bits|, img.width, img.height, bpp);
      assert AllInBounds(img, shots) <==> AllInBounds(Blacken(img), shots);
    }
  }

  /** What the simulation shows: a pixel is lit exactly when one of encode's shots lands on it. */
  lemma {:induction false} SimulationShowsShots(img: Image, size: nat, start: int, end: int, x: int, y: int)
    requires img.Valid() && ValidRange(start, end) && img.InBounds(x, y)
    requires SimulationSpec(img, size, 0, start, end).Success?
    ensures SimulationSpec(img, size, 0, start, end).value.RGB(x, y) != 0 <==>
            exists i :: 0 <= i < 32 + 8 * size &&
              ShotAt(i, img.width, img.height, BitsPerPixel(start, end)).value.x == x &&
              ShotAt(i, img.width, img.height, BitsPerPixel(start, end)).value.y == y
  {
    var bpp := BitsPerPixel(start, end);
    var n := 32 + 8 * size;
    var shots := ShotRange(0, n, img.width, img.height, bpp);
    MarkHits(Blacken(img), shots, x, y);
    if Hits(shots, x, y) {
      var i :| 0 <= i < |shots| && shots[i].x == x && shots[i].y == y;
      assert ShotAt(i, img.width, img.height, bpp).value == shots[i];
    }
    if exists i :: 0 <= i < n && ShotAt(i, img.width, img.height, bpp).value.x == x &&
                   ShotAt(i, img.width, img.height, bpp).value.y == y {
      var i :| 0 <= i < n && ShotAt(i, img.width, img.height, bpp).value.x == x &&
               ShotAt(i, img.width, img.height, bpp).value.y == y;
      assert shots[i] == ShotAt(i, img.width, img.height, bpp).value;
    }
  }

  // ----- the round trip -----

  /**
   * The round trip: when the message fits and the image's address count does
   * not overflow an int, decoding the encoded image gives back the message.
   */
  lemma {:induction false} EncodeDecode(img: Image, file: seq<Byte>, start: int, end: int)
    requires img.Valid() && ValidRange(start, end)
    requires 8 * |file| + 50 < TWO_31
    requires Addresses(img.width, img.height, BitsPerPixel(start, end)) < TWO_31
    requires WillMessageFit(|file|, img.width, img.height, Layers(img), BitsPerPixel(start, end))
    ensures EncodeSpec(img, file, 0, start, end).Success?
    ensures DecodeSpec(EncodeSpec(img, file, 0, start, end).value, start, end) == Success(file)
  {
    var bpp := BitsPerPixel(start, end);
    var n := 32 + 8 * |file|;
    var out := EncodeWrites(img, file, start, end);
    var header := HeaderBits(I32(|file|));
    var body := MessageBits(file);
    ReadsSplit(out, n, bpp, header, body);
    HeaderRoundTrip(I32(|file|));
    SpaceBound(img.width, img.height, Layers(img), bpp);
    FittingLengthIsPlausible(|file|, img.width, img.height, Layers(img), bpp);
    var hs := ShotRange(0, 32, img.width, img.height, bpp);
    var bs := ShotRange(32, n, img.width, img.height, bpp);
    ShotRangeIsRun(0, 32, img.width, img.height, bpp);
    ShotRangeIsRun(32, n, img.width, img.height, bpp);
    DecodeSpecIs(StegoImage(out), start, end, hs, header, bs, body);
    PackMessage(file);
  }

  /** Encoding a fitting message succeeds, and the image then holds its bits at the first shots. */
  lemma {:induction false} EncodeWrites(img: Image, file: seq<Byte>, start: int, end: int) returns (out: Image)
    requires img.Valid() && ValidRange(start, end)
    requires 8 * |file| + 50 < TWO_31
    requires Addresses(img.width, img.height, BitsPerPixel(start, end)) < TWO_31
    requires WillMessageFit(|file|, img.width, img.height, Layers(img), BitsPerPixel(start, end))
    ensures out.Valid() && out.width == img.width && out.height == img.height && out.kind == img.kind
    ensures EncodeSpec(img, file, 0, start, end) == Success(StegoImage(out))
    ensures NoNullShot(32 + 8 * |file|, img.width, img.height, BitsPerPixel(start, end))
    ensures ReadBits(out, ShotRange(0, 32 + 8 * |file|, img.width, img.height, BitsPerPixel(start, end)))
            == Success(HeaderBits(I32(|file|)) + MessageBits(file))
  {
    var bpp := BitsPerPixel(start, end);
    var n := 32 + 8 * |file|;
    SpaceBound(img.width, img.height, Layers(img), bpp);
    WillMessageFitMeaning(|file|, img.width, img.height, Layers(img), bpp);
    ShotsUsable(n, img, bpp);
    var bits := EncodedBits(file, 0);
    assert bits == HeaderBits(I32(|file|)) + MessageBits(file) by {
      assert MessageBits(file)[0..] == MessageBits(file);
    }
    var shots := ShotRange(0, n, img.width, img.height, bpp);
    ReadAfterWrite(img, shots, bits);
    out := WriteBits(img, shots, bits).value;
  }

  /** The first 32 shots read the header and the rest read the body. */
  lemma {:induction false} ReadsSplit(img: Image, n: nat, bpp: int, header: seq<bool>, body: seq<bool>)
    requires img.Valid() && bpp >= 1 && 32 <= n && NoNullShot(n, img.width, img.height, bpp)
    requires |header| == 32
    requires ReadBits(img, ShotRange(0, n, img.width, img.height, bpp)) == Success(header + body)
    ensures ReadBits(img, ShotRange(0, 32, img.width, img.height, bpp)) == Success(header)
    ensures ReadBits(img, ShotRange(32, n, img.width, img.height, bpp)) == Success(body)
  {
    var hs := ShotRange(0, 32, img.width, img.height, bpp);
    var bs := ShotRange(32, n, img.width, img.height, bpp);
    ShotRangeSplit(32, n, img.width, img.height, bpp);
    ReadBitsConcat(img, hs, bs);
    var rh := ReadBits(img, hs).value;
    var rb := ReadBits(img, bs).value;
    assert rh + rb == header + body;
    assert rh == (rh + rb)[..32] == header;
    assert rb == (rh + rb)[32..] == body;
  }

  /** The fit test bounds the number of bits written by the number of addresses. */
  lemma {:induction false} SpaceBound(width: int, height: int, layers: int, bpp: int)
    requires width >= 1 && height >= 1 && bpp >= 1 && (layers == 0 || layers == 1 || layers == 3)
    requires Addresses(width, height, bpp) < TWO_31
    ensures width * height * layers * bpp <= Addresses(width, height, bpp)
    ensures width * height < TWO_31 && width * height * layers < TWO_31
    ensures ImageSpace(width, height, layers, bpp) == width * height * layers * bpp
  {
    var a := width * height;
    assert height * width == a;
    MulMono(a, 1, bpp);
    var ab := a * bpp;
    assert Addresses(width, height, bpp) == ab * 3;
    if layers == 3 {
      assert a * layers * bpp == ab * 3;
    }
    ImageSpaceExact(width, height, layers, bpp);
  }

  // ----- the shots the loops have made so far -----

  /** `shots` are what calls number lo, lo + 1, ... of getShot returned, in order. */
  ghost predicate IsRun(shots: seq<Shot>, lo: nat, width: int, height: int, bpp: int)
    requires width >= 1 && bpp >= 1
    decreases |shots|
  {
    shots == [] ||
    (IsRun(shots[..|shots| - 1], lo, width, height, bpp) &&
     ShotAt(lo + (|shots| - 1), width, height, bpp) == Some(shots[|shots| - 1]))
  }

  lemma {:induction false} RunStep(shots: seq<Shot>, lo: nat, k: nat, s: Shot, width: int, height: int, bpp: int)
    requires width >= 1 && bpp >= 1 && IsRun(shots, lo, width, height, bpp)
    requires k == lo + |shots| && ShotAt(k, width, height, bpp) == Some(s)
    ensures IsRun(shots + [s], lo, width, height, bpp)
  {
    assert (shots + [s])[..|shots|] == shots;
  }

  /** A run that follows non-null calls is the matching range of shots. */
  lemma {:induction false} RunIsShotRange(shots: seq<Shot>, lo: nat, width: int, height: int, bpp: int)
    requires width >= 1 && bpp >= 1 && IsRun(shots, lo, width, height, bpp)
    requires NoNullShot(lo, width, height, bpp)
    ensures NoNullShot(lo + |shots|, width, height, bpp)
    ensures shots == ShotRange(lo, lo + |shots|, width, height, bpp)
    decreases |shots|
  {
    if shots != [] {
      var n := |shots| - 1;
      RunIsShotRange(shots[..n], lo, width, height, bpp);
      assert ShotAt(lo + n, width, height, bpp).Some?;
      assert NoNullShot(lo + |shots|, width, height, bpp);
      var r := ShotRange(lo, lo + |shots|, width, height, bpp);
      assert forall i :: 0 <= i < n ==> r[i] == shots[..n][i];
      assert Some(r[n]) == ShotAt(lo + n, width, height, bpp);
    }
  }

  /** Conversely, a range of shots is a run. */
  lemma {:induction false} ShotRangeIsRun(lo: nat, hi: nat, width: int, height: int, bpp: int)
    requires width >= 1 && bpp >= 1 && lo <= hi && NoNullShot(hi, width, height, bpp)
    ensures IsRun(ShotRange(lo, hi, width, height, bpp), lo, width, height, bpp)
    decreases hi - lo
  {
    if lo < hi {
      ShotRangeIsRun(lo, hi - 1, width, height, bpp);
      ShotRangeSnoc(lo, hi - 1, width, height, bpp);
      RunStep(ShotRange(lo, hi - 1, width, height, bpp), lo, hi - 1,
              ShotAt(hi - 1, width, height, bpp).value, width, height, bpp);
    }
  }

  // ----- the outcomes of the spec functions, one lemma per exit of the Java code -----

  lemma {:induction false} EncodeRefused(img: Image, file: seq<Byte>, delivered: nat, start: int, end: int)
    requires img.Valid() && ValidRange(start, end) && delivered <= 8 * |file|
    requires !WillMessageFit(|file|, img.width, img.height, Layers(img), BitsPerPixel(start, end))
    ensures EncodeSpec(img, file, delivered, start, end) == Failure(IllegalArgument)
  {
  }

  /** Call k of getShot is null or lands outside the image: encode fails. */
  lemma {:induction false} EncodeCrash(img: Image, file: seq<Byte>, delivered: nat, start: int, end: int, k: nat)
    requires img.Valid() && ValidRange(start, end) && delivered <= 8 * |file|
    requires WillMessageFit(|file|, img.width, img.height, Layers(img), BitsPerPixel(start, end))
    requires k < |EncodedBits(file, delivered)|
    requires ShotAt(k, img.width, img.height, BitsPerPixel(start, end)).None? ||
             !img.InBounds(ShotAt(k, img.width, img.height, BitsPerPixel(start, end)).value.x,
                           ShotAt(k, img.width, img.height, BitsPerPixel(start, end)).value.y)
    ensures EncodeSpec(img, file, delivered, start, end) == Failure(Crash)
  {
    var bpp := BitsPerPixel(start, end);
    var bits := EncodedBits(file, delivered);
    if NoNullShot(|bits|, img.width, img.height, bpp) {
      var full := ShotRange(0, |bits|, img.width, img.height, bpp);
      assert Some(full[k]) == ShotAt(k, img.width, img.height, bpp);
    }
  }

  lemma {:induction false} EncodeSpecIs(img: Image, file: seq<Byte>, delivered: nat, start: int, end: int,
                     shots: seq<Shot>, out: Image)
    requires img.Valid() && ValidRange(start, end) && delivered <= 8 * |file|
    requires WillMessageFit(|file|, img.width, img.height, Layers(img), BitsPerPixel(start, end))
    requires IsRun(shots, 0, img.width, img.height, BitsPerPixel(start, end))
    requires |shots| == |EncodedBits(file, delivered)|
    requires WriteBits(img, shots, EncodedBits(file, delivered)) == Success(out)
    ensures EncodeSpec(img, file, delivered, start, end) == Success(StegoImage(out))
  {
    var bpp := BitsPerPixel(start, end);
    RunIsShotRange(shots, 0, img.width, img.height, bpp);
    var n := |EncodedBits(file, delivered)|;
    assert NoNullShot(n, img.width, img.height, bpp);
    assert shots == ShotRange(0, n, img.width, img.height, bpp);
  }

  /** Header call k of getShot is null or lands outside the image: decode fails. */
  lemma {:induction false} DecodeHeaderCrash(s: StegoImage, start: int, end: int, k: nat)
    requires s.Valid() && ValidRange(start, end) && k < 32
    requires ShotAt(k, s.image.width, s.image.height, BitsPerPixel(start, end)).None? ||
             !s.image.InBounds(ShotAt(k, s.image.width, s.image.height, BitsPerPixel(start, end)).value.x,
                               ShotAt(k, s.image.width, s.image.height, BitsPerPixel(start, end)).value.y)
    ensures DecodeSpec(s, start, end) == Failure(Crash)
  {
    var bpp := BitsPerPixel(start, end);
    if NoNullShot(32, s.image.width, s.image.height, bpp) {
      var full := ShotRange(0, 32, s.image.width, s.image.height, bpp);
      assert Some(full[k]) == ShotAt(k, s.image.width, s.image.height, bpp);
    }
  }

  /** The first 32 calls of getShot returned `hshots`, and the bits at them are `header`. */
  ghost predicate HeaderRead(s: StegoImage, start: int, end: int, hshots: seq<Shot>, header: seq<bool>)
    requires s.Valid() && ValidRange(start, end)
  {
    |hshots| == 32 && IsRun(hshots, 0, s.image.width, s.image.height, BitsPerPixel(start, end)) &&
    ReadBits(s.image, hshots) == Success(header)
  }

  /** Calls 32, 33, ... of getShot returned `bshots`, and the bits at them are `body`. */
  ghost predicate BodyRead(s: StegoImage, start: int, end: int, bshots: seq<Shot>, body: seq<bool>)
    requires s.Valid() && ValidRange(start, end)
  {
    IsRun(bshots, 32, s.image.width, s.image.height, BitsPerPixel(start, end)) &&
    ReadBits(s.image, bshots) == Success(body)
  }

  lemma {:induction false} DecodeNoMessage(s: StegoImage, start: int, end: int, hshots: seq<Shot>, header: seq<bool>)
    requires s.Valid() && ValidRange(start, end)
    requires HeaderRead(s, start, end, hshots, header)
    requires Implausible(BodyLength(HeaderValue(header)),
                         ImageSpace(s.image.width, s.image.height, GetLayerCount(s), BitsPerPixel(start, end)))
    ensures DecodeSpec(s, start, end) == Failure(NoMessage)
  {
    RunIsShotRange(hshots, 0, s.image.width, s.image.height, BitsPerPixel(start, end));
  }

  /** Body call p of getShot is null or lands outside the image: decode fails. */
  lemma {:induction false} DecodeBodyCrash(s: StegoImage, start: int, end: int, hshots: seq<Shot>, header: seq<bool>, p: nat)
    requires s.Valid() && ValidRange(start, end)
    requires HeaderRead(s, start, end, hshots, header)
    requires !Implausible(BodyLength(HeaderValue(header)),
                          ImageSpace(s.image.width, s.image.height, GetLayerCount(s), BitsPerPixel(start, end)))
    requires 32 <= p < 32 + BodyLength(HeaderValue(header))
    requires ShotAt(p, s.image.width, s.image.height, BitsPerPixel(start, end)).None? ||
             !s.image.InBounds(ShotAt(p, s.image.width, s.image.height, BitsPerPixel(start, end)).value.x,
                               ShotAt(p, s.image.width, s.image.height, BitsPerPixel(start, end)).value.y)
    ensures DecodeSpec(s, start, end) == Failure(Crash)
  {
    var bpp := BitsPerPixel(start, end);
    RunIsShotRange(hshots, 0, s.image.width, s.image.height, bpp);
    var n := 32 + BodyLength(HeaderValue(header));
    if NoNullShot(n, s.image.width, s.image.height, bpp) {
      var full := ShotRange(32, n, s.image.width, s.image.height, bpp);
      assert Some(full[p - 32]) == ShotAt(p, s.image.width, s.image.height, bpp);
    }
  }

  lemma {:induction false} DecodeSpecIs(s: StegoImage, start: int, end: int, hshots: seq<Shot>, header: seq<bool>,
                     bshots: seq<Shot>, body: seq<bool>)
    requires s.Valid() && ValidRange(start, end)
    requires HeaderRead(s, start, end, hshots, header)
    requires !Implausible(BodyLength(HeaderValue(header)),
                          ImageSpace(s.image.width, s.image.height, GetLayerCount(s), BitsPerPixel(start, end)))
    requires BodyRead(s, start, end, bshots, body) && |bshots| == BodyLength(HeaderValue(header))
    ensures DecodeSpec(s, start, end) == Success(Pack(body))
  {
    var bpp := BitsPerPixel(start, end);
    RunIsShotRange(hshots, 0, s.image.width, s.image.height, bpp);
    assert hshots == ShotRange(0, 32, s.image.width, s.image.height, bpp);
    RunIsShotRange(bshots, 32, s.image.width, s.image.height, bpp);
    var n := 32 + BodyLength(HeaderValue(header));
    assert NoNullShot(n, s.image.width, s.image.height, bpp);
    assert bshots == ShotRange(32, n, s.image.width, s.image.height, bpp);
  }

  lemma {:induction false} SimulationRefused(img: Image, size: nat, delivered: nat, start: int, end: int)
    requires img.Valid() && ValidRange(start, end) && delivered <= 8 * size
    requires !WillMessageFit(size, img.width, img.height, Layers(img), BitsPerPixel(start, end))
    ensures SimulationSpec(img, size, delivered, start, end) == Failure(IllegalArgument)
  {
  }

  /** Call k of getShot is null or lands outside the image: the simulation fails. */
  lemma {:induction false} SimulationCrash(img: Image, size: nat, delivered: nat, start: int, end: int, k: nat)
    requires img.Valid() && ValidRange(start, end) && delivered <= 8 * size
    requires WillMessageFit(size, img.width, img.height, Layers(img), BitsPerPixel(start, end))
    requires k < 32 + (8 * size - delivered)
    requires ShotAt(k, img.width, img.height, BitsPerPixel(start, end)).None? ||
             !img.InBounds(ShotAt(k, img.width, img.height, BitsPerPixel(start, end)).value.x,
                           ShotAt(k, img.width, img.height, BitsPerPixel(start, end)).value.y)
    ensures SimulationSpec(img, size, delivered, start, end) == Failure(Crash)
  {
    var bpp := BitsPerPixel(start, end);
    var n := 32 + (8 * size - delivered);
    if NoNullShot(n, img.width, img.height, bpp) {
      var full := ShotRange(0, n, img.width, img.height, bpp);
      assert Some(full[k]) == ShotAt(k, img.width, img.height, bpp);
      assert !AllInBounds(Blacken(img), full);
    }
  }

  lemma {:induction false} SimulationSpecIs(img: Image, size: nat, delivered: nat, start: int, end: int,
                         shots: seq<Shot>, out: Image)
    requires img.Valid() && ValidRange(start, end) && delivered <= 8 * size
    requires WillMessageFit(size, img.width, img.height, Layers(img), BitsPerPixel(start, end))
    requires IsRun(shots, 0, img.width, img.height, BitsPerPixel(start, end))
    requires |shots| == 32 + (8 * size - delivered)
    requires Mark(Blacken(img), shots) == Success(out)
    ensures SimulationSpec(img, size, delivered, start, end) == Success(out)
  {
    SimulationRunIs(img, BitsPerPixel(start, end), shots, out);
  }

  lemma {:induction false} SimulationRunIs(img: Image, bpp: int, shots: seq<Shot>, out: Image)
    requires img.Valid() && 1 <= bpp
    requires IsRun(shots, 0, img.width, img.height, bpp)
    requires Mark(Blacken(img), shots) == Success(out)
    ensures SimulationRun(img, |shots|, bpp) == Success(out)
  {
    RunIsShotRange(shots, 0, img.width, img.height, bpp);
    assert NoNullShot(|shots|, img.width, img.height, bpp);
    assert shots == ShotRange(0, |shots|, img.width, img.height, bpp);
  }

  // ----- the algorithm object -----

  class BlindHide {
    /** mStartBits, mEndBits: the bit range; bits per pixel is end - start + 1. */
    const startBits: int
    const endBits: int
    /** mCountBits: how many shots have been made since the last reset. */
    var countBits: nat

    constructor (start: int, end: int)
      requires ValidRange(start, end)
      ensures startBits == start && endBits == end && countBits == 0
    {
      startBits := start;
      endBits := end;
      countBits := 0;
    }

    /** The Java constructor: out-of-range or inverted bit ranges are refused. */
    static method New(start: int, end: int) returns (r: Result<BlindHide>)
      ensures r.Failure? <==> !ValidRange(start, end)
      ensures r.Failure? ==> r.error == IllegalArgument
      ensures r.Success? ==> fresh(r.value) && r.value.startBits == start &&
                             r.value.endBits == end && r.value.countBits == 0
    {
      if start > 6 || start < 0 {
        return Failure(IllegalArgument);
      }
      if end > 6 || end < 0 {
        return Failure(IllegalArgument);
      }
      if start > end {
        return Failure(IllegalArgument);
      }
      var b := new BlindHide(start, end);
      return Success(b);
    }

    /** The default constructor: bit range 0..0. */
    static method Default() returns (b: BlindHide)
      ensures fresh(b) && b.startBits == 0 && b.endBits == 0 && b.countBits == 0
    {
      b := new BlindHide(0, 0);
    }

    /** getShot: the shot for the current counter, which then advances. */
    method GetShot(height: int, width: int) returns (sh: Option<Shot>)
      requires ValidRange(startBits, endBits) && width >= 1
      modifies this
      ensures sh == ShotAt(old(countBits), width, height, BitsPerPixel(startBits, endBits))
      ensures countBits == old(countBits) + (if sh.Some? then 1 else 0)
    {
      var bitsPerPixel := (endBits - startBits) + 1;
      if I32(I32(I32(height * width) * bitsPerPixel) * 3) < countBits {
        return None;
      }
      var rangeUpTo := countBits % (bitsPerPixel * 3);
      var xRow := ((countBits - rangeUpTo) / (bitsPerPixel * 3)) % width;
      var yRow := I32((((countBits - rangeUpTo) / (bitsPerPixel * 3)) - xRow) / width);
      sh := Some(Shot(xRow, yRow, rangeUpTo % bitsPerPixel,
                      (rangeUpTo - (rangeUpTo % bitsPerPixel)) / bitsPerPixel));
      countBits := countBits + 1;
    }

    /** willMessageFit. */
    function WillFit(message: InsertableMessage, img: Image): bool
      requires img.Valid()
    {
      WillMessageFit(message.GetSize(), img.width, img.height, Layers(img), BitsPerPixel(startBits, endBits))
    }

    /** encode (without LSB matching). */
    method Encode(message: InsertableMessage, cover: Image) returns (r: Result<StegoImage>)
      requires ValidRange(startBits, endBits) && cover.Valid() && message.Valid()
      modifies this, message
      ensures r == EncodeSpec(cover, message.file, old(message.Delivered()), startBits, endBits)
      ensures !WillFit(message, cover) ==> unchanged(message)
      ensures r.Success? ==> message.Valid() && !message.NotFinished() && message.Delivered() == 8 * |message.file|
    {
      ghost var delivered := message.Delivered();
      ghost var file := message.file;
      if !WillFit(message, cover) {
        EncodeRefused(cover, file, delivered, startBits, endBits);
        return Failure(IllegalArgument);
      }
      countBits := 0;
      var messageSize := I32(message.GetSize());
      ghost var shots: seq<Shot> := [];
      var img := cover;
      for i := 0 to 32
        invariant countBits == i == |shots|
        invariant Written(cover, file, delivered, shots, img)
        invariant message.Valid() && message.Delivered() == delivered && message.file == file
      {
        var next, s := PutHeaderBit(cover, file, delivered, shots, img, messageSize, i);
        if next.Failure? {
          return Failure(Crash);
        }
        shots := shots + [s];
        img := next.value;
      }
      while message.NotFinished()
        invariant message.Valid() && message.file == file
        invariant delivered <= message.Delivered() <= 8 * |file|
        invariant countBits == |shots| == 32 + (message.Delivered() - delivered)
        invariant Written(cover, file, delivered, shots, img)
        decreases 8 * |file| - message.Delivered()
      {
        var next, s := PutMessageBit(cover, file, delivered, shots, img, message);
        if next.Failure? {
          return Failure(Crash);
        }
        shots := shots + [s];
        img := next.value;
      }
      ghost var bits := EncodedBits(file, delivered);
      assert message.Delivered() == 8 * |file|;
      assert |shots| == |bits|;
      assert bits[..|shots|] == bits;
      EncodeSpecIs(cover, file, delivered, startBits, endBits, shots, img);
      return Success(StegoImage(img));
    }

    /** After `shots`, encode has written the first |shots| bits of the message's encoding into `img`. */
    ghost predicate Written(cover: Image, file: seq<Byte>, delivered: nat, shots: seq<Shot>, img: Image)
      reads this
    {
      ValidRange(startBits, endBits) && cover.Valid() && delivered <= 8 * |file| &&
      WillMessageFit(|file|, cover.width, cover.height, Layers(cover), BitsPerPixel(startBits, endBits)) &&
      |shots| <= |EncodedBits(file, delivered)| &&
      IsRun(shots, 0, cover.width, cover.height, BitsPerPixel(startBits, endBits)) &&
      WriteBits(cover, shots, EncodedBits(file, delivered)[..|shots|]) == Success(img)
    }

    /** Pass i of the header loop of encode: the next shot, then bit i of the size. */
    method PutHeaderBit(ghost cover: Image, ghost file: seq<Byte>, ghost delivered: nat, ghost shots: seq<Shot>,
                        img: Image, messageSize: int, i: nat) returns (r: Result<Image>, s: Shot)
      requires Written(cover, file, delivered, shots, img) && countBits == |shots| == i < 32
      requires messageSize == I32(|file|)
      modifies this
      ensures r.Failure? ==> r == Failure(Crash) && EncodeSpec(cover, file, delivered, startBits, endBits) == Failure(Crash)
      ensures r.Success? ==> countBits == |shots| + 1 && Written(cover, file, delivered, shots + [s], r.value)
    {
      var sh := GetShot(img.height, img.width);
      var bit := JavaBit(messageSize, i);
      EncodedHeaderBit(file, delivered, i);
      r, s := Put(cover, file, delivered, shots, img, sh, bit);
    }

    /** One pass of the message loop of encode: the next shot, the next message bit, the write. */
    method PutMessageBit(ghost cover: Image, ghost file: seq<Byte>, ghost delivered: nat, ghost shots: seq<Shot>,
                         img: Image, message: InsertableMessage) returns (r: Result<Image>, s: Shot)
      requires Written(cover, file, delivered, shots, img) && countBits == |shots|
      requires message.Valid() && message.file == file && !message.finished
      requires delivered <= message.Delivered() && |shots| == 32 + (message.Delivered() - delivered)
      modifies this, message
      ensures r.Failure? ==> r == Failure(Crash) && EncodeSpec(cover, file, delivered, startBits, endBits) == Failure(Crash)
      ensures r.Success? ==> countBits == |shots| + 1 && Written(cover, file, delivered, shots + [s], r.value)
      ensures message.Valid() && message.file == file && message.Delivered() == old(message.Delivered()) + 1
    {
      var sh := GetShot(img.height, img.width);
      var bit := NextEncodedBit(message, file, delivered);
      r, s := Put(cover, file, delivered, shots, img, sh, bit);
    }

    /**
     * The body of both loops of encode once the shot and the bit are known:
     * a null shot or a pixel outside the image is an exception, otherwise
     * the bit is written at the shot.
     */
    method Put(ghost cover: Image, ghost file: seq<Byte>, ghost delivered: nat, ghost shots: seq<Shot>,
               img: Image, sh: Option<Shot>, bit: bool) returns (r: Result<Image>, s: Shot)
      requires Written(cover, file, delivered, shots, img)
      requires |shots| < |EncodedBits(file, delivered)| && bit == EncodedBits(file, delivered)[|shots|]
      requires sh == ShotAt(|shots|, cover.width, cover.height, BitsPerPixel(startBits, endBits))
      ensures r.Failure? ==> r == Failure(Crash) && EncodeSpec(cover, file, delivered, startBits, endBits) == Failure(Crash)
      ensures r.Success? ==> sh == Some(s) && Written(cover, file, delivered, shots + [s], r.value)
    {
      ghost var bits := EncodedBits(file, delivered);
      ghost var k := |shots|;
      if sh.None? || !img.InBounds(sh.value.x, sh.value.y) {
        EncodeCrash(cover, file, delivered, startBits, endBits, k);
        return Failure(Crash), Shot(0, 0, 0, 0);
      }
      s := sh.value;
      TakeNext(bits, k);
      WriteStep(cover, shots, bits[..k], img, s, bit);
      RunStep(shots, 0, k, s, cover.width, cover.height, BitsPerPixel(startBits, endBits));
      r := Success(SetPixelBit(img, s.x, s.y, s.layer, s.bitPos, bit));
    }

    /** decode: the message bytes, as written to the output file. */
    method Decode(simage: StegoImage) returns (r: Result<seq<Byte>>)
      requires ValidRange(startBits, endBits) && simage.Valid()
      modifies this
      ensures r == DecodeSpec(simage, startBits, endBits)
    {
      var size, hshots, header := ReadSize(simage);
      if size.Failure? {
        return Failure(Crash);
      }
      var size2 := BodyLength(size.value);
      var imageSpace := ImageSpace(simage.image.width, simage.image.height, GetLayerCount(simage),
                                   BitsPerPixel(startBits, endBits));
      if Implausible(size2, imageSpace) {
        DecodeNoMessage(simage, startBits, endBits, hshots, header);
        return Failure(NoMessage);
      }
      r := ReadBody(simage, hshots, header, size2);
    }

    /** The first loop of decode and the bit reversal after it: the message length in bytes. */
    method ReadSize(simage: StegoImage) returns (r: Result<int>, ghost hshots: seq<Shot>, ghost header: seq<bool>)
      requires ValidRange(startBits, endBits) && simage.Valid()
      modifies this
      ensures r.Failure? ==> r == Failure(Crash) && DecodeSpec(simage, startBits, endBits) == Failure(Crash)
      ensures r.Success? ==>
                countBits == 32 && HeaderRead(simage, startBits, endBits, hshots, header) &&
                r.value == HeaderValue(header)
    {
      var size := 0;
      countBits := 0;
      header := [];
      hshots := [];
      for i := 0 to 32
        invariant countBits == i == |hshots|
        invariant IsRun(hshots, 0, simage.image.width, simage.image.height, BitsPerPixel(startBits, endBits))
        invariant ReadBits(simage.image, hshots) == Success(header)
        invariant |header| == i && size == I32(FromMsb(header))
      {
        var bit, s := ReadNext(simage, 0, hshots, header);
        if bit.Failure? {
          DecodeHeaderCrash(simage, startBits, endBits, i);
          return Failure(Crash), hshots, header;
        }
        hshots := hshots + [s];
        ShiftInMsb(header, bit.value == 1);
        size := ShiftIn(size, bit.value == 1);
        header := header + [bit.value == 1];
      }
      var size2 := ReverseHeader(size, header);
      r := Success(size2);
    }

    /** The second loop of decode: `length` bits into a new retrieved message, which is then closed. */
    method ReadBody(simage: StegoImage, ghost hshots: seq<Shot>, ghost header: seq<bool>, length: int)
      returns (r: Result<seq<Byte>>)
      requires ValidRange(startBits, endBits) && simage.Valid()
      requires countBits == 32 && HeaderRead(simage, startBits, endBits, hshots, header)
      requires length == BodyLength(HeaderValue(header))
      requires !Implausible(length, ImageSpace(simage.image.width, simage.image.height, GetLayerCount(simage),
                                               BitsPerPixel(startBits, endBits)))
      modifies this
      ensures r == DecodeSpec(simage, startBits, endBits)
    {
      var message := new RetrievedMessage();
      ghost var bshots: seq<Shot> := [];
      for k := 0 to length
        invariant countBits == 32 + k && |bshots| == k
        invariant message.Valid() && !message.finished
        invariant BodyRead(simage, startBits, endBits, bshots, message.received)
      {
        var next, s := ReadBodyBit(simage, hshots, header, bshots, message);
        if next.Failure? {
          return Failure(Crash);
        }
        bshots := bshots + [s];
      }
      message.Close();
      DecodeSpecIs(simage, startBits, endBits, hshots, header, bshots, message.received);
      return Success(message.output);
    }

    /** One pass of the second loop of decode: the next bit goes to the retrieved message. */
    method ReadBodyBit(simage: StegoImage, ghost hshots: seq<Shot>, ghost header: seq<bool>, ghost bshots: seq<Shot>,
                       message: RetrievedMessage) returns (r: Result<()>, s: Shot)
      requires ValidRange(startBits, endBits) && simage.Valid()
      requires HeaderRead(simage, startBits, endBits, hshots, header)
      requires !Implausible(BodyLength(HeaderValue(header)),
                            ImageSpace(simage.image.width, simage.image.height, GetLayerCount(simage),
                                       BitsPerPixel(startBits, endBits)))
      requires countBits == 32 + |bshots| && |bshots| < BodyLength(HeaderValue(header))
      requires message.Valid() && !message.finished
      requires BodyRead(simage, startBits, endBits, bshots, message.received)
      modifies this, message
      ensures r.Failure? ==> r == Failure(Crash) && DecodeSpec(simage, startBits, endBits) == Failure(Crash)
      ensures r.Success? ==>
                countBits == 32 + |bshots| + 1 && message.Valid() && !message.finished &&
                BodyRead(simage, startBits, endBits, bshots + [s], message.received)
    {
      ghost var i := countBits;
      var bit;
      bit, s := ReadNext(simage, 32, bshots, message.received);
      if bit.Failure? {
        DecodeBodyCrash(simage, startBits, endBits, hshots, header, i);
        return Failure(Crash), s;
      }
      var _ := message.SetNext(bit.value == 1);
      r := Success(());
    }

    /**
     * The body of both loops of decode: the next shot and the bit at it; a
     * null shot or a pixel outside the image is an exception.
     */
    method ReadNext(simage: StegoImage, ghost lo: nat, ghost shots: seq<Shot>, ghost prev: seq<bool>)
      returns (r: Result<int>, s: Shot)
      requires ValidRange(startBits, endBits) && simage.Valid() && countBits == lo + |shots|
      requires IsRun(shots, lo, simage.image.width, simage.image.height, BitsPerPixel(startBits, endBits))
      requires ReadBits(simage.image, shots) == Success(prev)
      modifies this
      ensures r.Failure? ==>
                r == Failure(Crash) &&
                var sh := ShotAt(lo + |shots|, simage.image.width, simage.image.height, BitsPerPixel(startBits, endBits));
                sh.None? || !simage.image.InBounds(sh.value.x, sh.value.y)
      ensures r.Success? ==>
                countBits == lo + |shots| + 1 && (r.value == 0 || r.value == 1) &&
                IsRun(shots + [s], lo, simage.image.width, simage.image.height, BitsPerPixel(startBits, endBits)) &&
                ReadBits(simage.image, shots + [s]) == Success(prev + [r.value == 1])
    {
      ghost var k := countBits;
      var sh := GetShot(simage.image.height, simage.image.width);
      if sh.None? {
        return Failure(Crash), Shot(0, 0, 0, 0);
      }
      s := sh.value;
      r := GetPixelBit(simage, s.x, s.y, s.layer, s.bitPos);
      if r.Failure? {
        return;
      }
      ReadStep(simage.image, shots, prev, s, r.value);
      RunStep(shots, lo, k, s, simage.image.width, simage.image.height, BitsPerPixel(startBits, endBits));
    }

    /** outputSimulation: the map of the pixels encode would write to. */
    method OutputSimulation(message: InsertableMessage, cover: Image) returns (r: Result<Image>)
      requires ValidRange(startBits, endBits) && cover.Valid() && message.Valid()
      modifies this, message
      ensures r == SimulationSpec(cover, |message.file|, old(message.Delivered()), startBits, endBits)
      ensures !WillFit(message, cover) ==> unchanged(message)
      ensures r.Success? ==> message.Valid() && !message.NotFinished() && message.Delivered() == 8 * |message.file|
    {
      ghost var delivered := message.Delivered();
      ghost var size := |message.file|;
      if !WillFit(message, cover) {
        SimulationRefused(cover, size, delivered, startBits, endBits);
        return Failure(IllegalArgument);
      }
      countBits := 0;
      var image := BlackOut(cover);
      ghost var shots: seq<Shot> := [];
      for i := 0 to 32
        invariant countBits == i == |shots|
        invariant Marked(cover, size, delivered, shots, image)
        invariant message.Valid() && message.Delivered() == delivered && |message.file| == size
      {
        var next, s := MarkNext(cover, size, delivered, shots, image);
        if next.Failure? {
          return Failure(Crash);
        }
        shots := shots + [s];
        image := next.value;
      }
      while message.NotFinished()
        invariant message.Valid() && |message.file| == size
        invariant delivered <= message.Delivered() <= 8 * size
        invariant countBits == |shots| == 32 + (message.Delivered() - delivered)
        invariant Marked(cover, size, delivered, shots, image)
        decreases 8 * size - message.Delivered()
      {
        var next, s := MarkNext(cover, size, delivered, shots, image);
        if next.Failure? {
          return Failure(Crash);
        }
        shots := shots + [s];
        image := next.value;
        var _ := message.NextBit();
      }
      assert message.Delivered() == 8 * size;
      SimulationSpecIs(cover, size, delivered, startBits, endBits, shots, image);
      return Success(image);
    }

    /** After `shots`, outputSimulation has lightened their pixels, in order, in the blacked-out cover. */
    ghost predicate Marked(cover: Image, size: nat, delivered: nat, shots: seq<Shot>, image: Image)
      reads this
    {
      ValidRange(startBits, endBits) && cover.Valid() && delivered <= 8 * size &&
      WillMessageFit(size, cover.width, cover.height, Layers(cover), BitsPerPixel(startBits, endBits)) &&
      |shots| <= 32 + (8 * size - delivered) &&
      IsRun(shots, 0, cover.width, cover.height, BitsPerPixel(startBits, endBits)) &&
      Mark(Blacken(cover), shots) == Success(image)
    }

    /**
     * One pass of either loop of outputSimulation: the next shot and the
     * lightening of its pixel; a null shot or a pixel outside the image is an
     * exception.
     */
    method MarkNext(ghost cover: Image, ghost size: nat, ghost delivered: nat, ghost shots: seq<Shot>,
                    image: Image) returns (r: Result<Image>, s: Shot)
      requires Marked(cover, size, delivered, shots, image) && countBits == |shots|
      requires |shots| < 32 + (8 * size - delivered)
      modifies this
      ensures r.Failure? ==> r == Failure(Crash) && SimulationSpec(cover, size, delivered, startBits, endBits) == Failure(Crash)
      ensures r.Success? ==> countBits == |shots| + 1 && Marked(cover, size, delivered, shots + [s], r.value)
    {
      ghost var k := countBits;
      var sh := GetShot(image.height, image.width);
      if sh.None? || !image.InBounds(sh.value.x, sh.value.y) {
        SimulationCrash(cover, size, delivered, startBits, endBits, k);
        return Failure(Crash), Shot(0, 0, 0, 0);
      }
      s := sh.value;
      MarkStep(Blacken(cover), shots, image, s);
      RunStep(shots, 0, k, s, cover.width, cover.height, BitsPerPixel(startBits, endBits));
      r := Success(SetRGB(image, s.x, s.y, DecreaseDarkness(image.RGB(s.x, s.y))));
    }
  }
}
