/**
 * HideSeek: the message is scattered over the image by a seeded shot
 * generator. A four-dimensional occupancy array (`haveWritten[x][y][layer][bit]`)
 * records every bit used so far; a shot that lands on a used bit is thrown
 * away and drawn again. Encode, decode and the simulation build the generator
 * from the same seed and parameters and keep the occupancy the same way, so
 * they visit the same bits.
 */
module HideSeek {
  import opened Basics
  import opened Bits
  import opened Raster
  import opened StegoImage
  import opened Protocol
  import opened InsertableMessage
  import opened RetrievedMessage
  import opened Simulation
  import opened PRandom

  /** The bit ranges the constructor accepts: 0 <= start <= end <= 7. */
  predicate ValidRange(start: int, end: int)
  {
    0 <= start <= end <= 7
  }

  /** Bits per pixel, `(end - start) + 1`. */
  function BitsPerPixel(start: int, end: int): int
  {
    (end - start) + 1
  }

  function Layers(img: Image): int
  {
    GetLayerCount(StegoImage(img))
  }

  /** An index of the occupancy array: `[x][y][layer][bitpos]`. */
  type Slot = (int, int, int, int)

  function SlotOf(s: Shot): Slot
  {
    (s.x, s.y, s.layer, s.bitPos)
  }

  function Slots(shots: seq<Shot>): set<Slot>
  {
    set i | 0 <= i < |shots| :: SlotOf(shots[i])
  }

  /**
   * How many times the model redraws a shot that lands on a used bit before
   * it reports `Hang`.
   */
  const MAX_REDRAWS: nat := 0x1_0000_0000_0000

  /** A shot of generator g: inside its width, height and layer count and its bit range. */
  predicate Fits(g: Generator, s: Shot)
  {
    0 <= s.x < g.width && 0 <= s.y < g.height && 0 <= s.layer < g.numLayers &&
    (g.start <= g.end ==> g.start <= s.bitPos <= g.end)
  }

  /** The generators HideSeek builds: at most three layers and a bit range inside 0..7. */
  predicate Usable(g: Generator)
  {
    g.numLayers <= 3 && 0 <= g.start <= g.end <= 7
  }

  /**
   * `rgen.getShot()`. The call is wrapped in one level of recursion, `Draw(g,
   * 1)`, which puts the generator's arithmetic one unfolding further from
   * each use; DrawIsGetShot states the equality, and the contract carries
   * what the rest of the model needs.
   */
  function Draw(g: Generator, hold: nat): (r: Result<(Shot, Generator)>)
    requires g.Valid()
    ensures r == Failure(IllegalArgument) ==>
              g.width <= 0 || g.height <= 0 || g.numLayers <= 0 || BitRange(g.start, g.end) <= 0
    ensures r.Failure? ==> r.error == IllegalArgument || r.error == Hang
    ensures r.Success? ==> Fits(g, r.value.0) && r.value.1.Valid() && r.value.1.SameBounds(g)
  {
    if hold == 0 then GetShotSpec(g) else Draw(g, hold - 1)
  }

  lemma {:induction false} DrawIsGetShot(g: Generator)
    requires g.Valid()
    ensures Draw(g, 1) == GetShotSpec(g)
  {
  }

  /**
   * The redraw loop: while the slot of sh is used, draw another shot. A shot
   * that comes out is free and inside the generator's bounds.
   */
  function Resample(sh: Shot, g: Generator, used: set<Slot>, fuel: nat): (r: Result<(Shot, Generator)>)
    requires g.Valid() && Fits(g, sh)
    ensures r.Failure? ==> r.error == IllegalArgument || r.error == Hang
    ensures r.Success? ==> SlotOf(r.value.0) !in used && Fits(g, r.value.0) &&
                           r.value.1.Valid() && r.value.1.SameBounds(g)
    decreases fuel
  {
    if SlotOf(sh) !in used then Success((sh, g))
    else if fuel == 0 then Failure(Hang)
    else
      match Draw(g, 1)
      case Failure(e) => Failure(e)
      case Success((sh', g')) => Resample(sh', g', used, fuel - 1)
  }

  /** `rgen.getShot()` and then the redraw loop: the next shot on a free bit. */
  function FreeShot(g: Generator, used: set<Slot>): (r: Result<(Shot, Generator)>)
    requires g.Valid()
    ensures r.Failure? ==> r.error == IllegalArgument || r.error == Hang
    ensures r.Success? ==> SlotOf(r.value.0) !in used && Fits(g, r.value.0) &&
                           r.value.1.Valid() && r.value.1.SameBounds(g)
  {
    match Draw(g, 1)
    case Failure(e) => Failure(e)
    case Success((sh, g')) => Resample(sh, g', used, MAX_REDRAWS)
  }

  /** The shot generator and the occupancy array of one run of encode, decode or the simulation. */
  datatype Picker = Picker(gen: Generator, used: set<Slot>)

  /** One shot of a run: a free shot, whose bit is then marked as used. */
  function NextShot(p: Picker): (r: Result<(Shot, Picker)>)
    requires p.gen.Valid()
    ensures r.Failure? ==> r.error == IllegalArgument || r.error == Hang
    ensures r.Success? ==>
              SlotOf(r.value.0) !in p.used && Fits(p.gen, r.value.0) &&
              r.value.1.used == p.used + {SlotOf(r.value.0)} &&
              r.value.1.gen.Valid() && r.value.1.gen.SameBounds(p.gen)
  {
    match FreeShot(p.gen, p.used)
    case Failure(e) => Failure(e)
    case Success((s, g')) => Success((s, Picker(g', p.used + {SlotOf(s)})))
  }

  /** The next n shots of a run, and the picker after them; the facts about them are ShotsFresh. */
  function Shots(p: Picker, n: nat): (r: Result<(seq<Shot>, Picker)>)
    requires p.gen.Valid()
    ensures r.Failure? ==> r.error == IllegalArgument || r.error == Hang
    ensures r.Success? ==> |r.value.0| == n && r.value.1.gen.Valid() && r.value.1.gen.SameBounds(p.gen)
    decreases n
  {
    if n == 0 then Success(([], p))
    else
      match Shots(p, n - 1)
      case Failure(e) => Failure(e)
      case Success((shots, p1)) =>
        match NextShot(p1)
        case Failure(e) => Failure(e)
        case Success((s, p2)) => Success((shots + [s], p2))
  }

  /**
   * The shots of a run lie inside the generator's bounds, avoid the bits used
   * before and never repeat a bit; afterwards exactly their bits have been
   * added to the used ones.
   */
  lemma {:induction false} ShotsFresh(p: Picker, n: nat)
    requires p.gen.Valid() && Shots(p, n).Success?
    ensures var (shots, p') := Shots(p, n).value;
            p'.used == p.used + Slots(shots) &&
            (forall i :: 0 <= i < n ==> Fits(p.gen, shots[i]) && SlotOf(shots[i]) !in p.used) &&
            (forall i, j :: 0 <= i < j < n ==> SlotOf(shots[i]) != SlotOf(shots[j]))
    decreases n
  {
    if n == 0 {
      assert Slots([]) == {};
    } else {
      ShotsFresh(p, n - 1);
      var (shots, p1) := Shots(p, n - 1).value;
      var (s, p2) := NextShot(p1).value;
      SlotsSnoc(shots, s);
      var t := shots + [s];
      assert Shots(p, n).value == (t, p2);
      assert forall i :: 0 <= i < n - 1 ==> t[i] == shots[i];
      assert t[n - 1] == s;
    }
  }

  lemma {:induction false} SlotsSnoc(shots: seq<Shot>, s: Shot)
    ensures Slots(shots + [s]) == Slots(shots) + {SlotOf(s)}
    ensures forall i :: 0 <= i < |shots| ==> SlotOf(shots[i]) in Slots(shots)
  {
    var t := shots + [s];
    assert forall i :: 0 <= i < |shots| ==> t[i] == shots[i];
    assert t[|shots|] == s;
  }

  /** A result of a run with `first` put in front of its shots. */
  function Prefixed(first: seq<Shot>, r: Result<(seq<Shot>, Picker)>): Result<(seq<Shot>, Picker)>
  {
    match r
    case Failure(e) => Failure(e)
    case Success((rest, q)) => Success((first + rest, q))
  }

  /** Making n = a + b shots is making a shots and then b more from where those left off. */
  lemma {:induction false} ShotsSplit(p: Picker, a: nat, b: nat, n: nat, first: seq<Shot>, mid: Picker)
    requires p.gen.Valid() && Shots(p, a) == Success((first, mid)) && n == a + b
    ensures mid.gen.Valid()
    ensures Shots(p, n) == Prefixed(first, Shots(mid, b))
    decreases b
  {
    if b > 0 {
      ShotsSplit(p, a, b - 1, n - 1, first, mid);
      PrefixedStep(p, n, first, mid, b);
    } else {
      assert first + [] == first;
    }
  }

  /** One more shot on both sides of ShotsSplit's equation keeps it. */
  lemma {:induction false} PrefixedStep(p: Picker, n: nat, first: seq<Shot>, mid: Picker, m: nat)
    requires p.gen.Valid() && mid.gen.Valid() && n > 0 && m > 0
    requires Shots(p, n - 1) == Prefixed(first, Shots(mid, m - 1))
    ensures Shots(p, n) == Prefixed(first, Shots(mid, m))
  {
    var r := Shots(mid, m - 1);
    if r.Success? {
      var (rest, q) := r.value;
      var t := NextShot(q);
      if t.Success? {
        var (s, q') := t.value;
        assert Shots(mid, m) == Success((rest + [s], q'));
        assert Shots(p, n) == Success(((first + rest) + [s], q'));
        assert (first + rest) + [s] == first + (rest + [s]);
      }
    }
  }

  /** The next shot of a run in progress, in terms of the generator and the used bits it has reached. */
  lemma {:induction false} ShotsNext(p0: Picker, shots: seq<Shot>, g: Generator, used: set<Slot>)
    requires p0.gen.Valid() && Shots(p0, |shots|) == Success((shots, Picker(g, used)))
    ensures g.Valid() && g.SameBounds(p0.gen)
    ensures FreeShot(g, used).Failure? ==> Shots(p0, |shots| + 1) == Failure(FreeShot(g, used).error)
    ensures FreeShot(g, used).Success? ==>
              Shots(p0, |shots| + 1) ==
              Success((shots + [FreeShot(g, used).value.0],
                       Picker(FreeShot(g, used).value.1, used + {SlotOf(FreeShot(g, used).value.0)})))
  {
  }

  /** A run that fails fails for good: asking for more shots fails the same way. */
  lemma {:induction false} ShotsFailLonger(p: Picker, k: nat, n: nat)
    requires p.gen.Valid() && k <= n && Shots(p, k).Failure?
    ensures Shots(p, n) == Failure(Shots(p, k).error)
    decreases n
  {
    if k < n {
      ShotsFailLonger(p, k, n - 1);
    }
  }

  /** Shots on distinct bits of the occupancy array name distinct bits of the image. */
  lemma {:induction false} DistinctSlotsDistinctAddresses(g: Generator, shots: seq<Shot>)
    requires Usable(g)
    requires forall i :: 0 <= i < |shots| ==> Fits(g, shots[i])
    requires forall i, j :: 0 <= i < j < |shots| ==> SlotOf(shots[i]) != SlotOf(shots[j])
    ensures DistinctAddresses(shots)
  {
    forall i, j | 0 <= i < j < |shots|
      ensures Addr(shots[i]) != Addr(shots[j])
    {
      var s, t := shots[i], shots[j];
      if Addr(s) == Addr(t) {
        LayerPosInjective(s.layer, s.bitPos, t.layer, t.bitPos);
        assert false;
      }
    }
  }

  /** Shots that fit a generator of the image's size are inside the image. */
  lemma {:induction false} FittingShotsInBounds(img: Image, g: Generator, shots: seq<Shot>)
    requires g.width == img.width && g.height == img.height
    requires forall i :: 0 <= i < |shots| ==> Fits(g, shots[i])
    ensures AllInBounds(img, shots)
  {
  }

  /** `new PRandom(seed, imgX, imgY, layers, start, end)` and a cleared occupancy array. */
  function StartPicker(seed: int, img: Image, start: int, end: int): (p: Picker)
    requires img.Valid() && ValidRange(start, end)
    ensures p.gen.Valid() && Usable(p.gen) && p.used == {}
    ensures p.gen.width == img.width && p.gen.height == img.height
  {
    Picker(NewGenerator(seed, img.width, img.height, Layers(img), start, end), {})
  }

  /** The shots of run of n shots, made from the start, lie in the image and on distinct bits. */
  lemma {:induction false} RunUsable(seed: int, img: Image, start: int, end: int, n: nat)
    requires img.Valid() && ValidRange(start, end)
    requires Shots(StartPicker(seed, img, start, end), n).Success?
    ensures AllInBounds(img, Shots(StartPicker(seed, img, start, end), n).value.0)
    ensures DistinctAddresses(Shots(StartPicker(seed, img, start, end), n).value.0)
  {
    var p := StartPicker(seed, img, start, end);
    var shots := Shots(p, n).value.0;
    ShotsFresh(p, n);
    FittingShotsInBounds(img, p.gen, shots);
    DistinctSlotsDistinctAddresses(p.gen, shots);
  }

  /** The shots of a run made from the start lie in the image. */
  lemma {:induction false} RunInBounds(seed: int, img: Image, start: int, end: int, n: nat)
    requires img.Valid() && ValidRange(start, end)
    requires Shots(StartPicker(seed, img, start, end), n).Success?
    ensures AllInBounds(img, Shots(StartPicker(seed, img, start, end), n).value.0)
  {
    var p := StartPicker(seed, img, start, end);
    ShotsFresh(p, n);
    FittingShotsInBounds(img, p.gen, Shots(p, n).value.0);
  }

  // ----- what encode, decode and the simulation compute -----

  /**
   * encode: refuse a message that does not fit; otherwise take one shot per
   * bit of the size header and of the message bits still to be delivered and
   * write each bit at its shot.
   */
  function EncodeSpec(img: Image, file: seq<Byte>, delivered: nat, seed: int, start: int, end: int)
    : (r: Result<StegoImage>)
    requires img.Valid() && ValidRange(start, end) && delivered <= 8 * |file|
    ensures r.Success? ==> r.value.Valid() && r.value.image.width == img.width &&
                           r.value.image.height == img.height && r.value.image.kind == img.kind
  {
    if !WillMessageFit(|file|, img.width, img.height, Layers(img), BitsPerPixel(start, end)) then
      Failure(IllegalArgument)
    else
      var bits := EncodedBits(file, delivered);
      match Shots(StartPicker(seed, img, start, end), |bits|)
      case Failure(e) => Failure(e)
      case Success((shots, _)) =>
        RunInBounds(seed, img, start, end, |bits|);
        Success(StegoImage(WriteBits(img, shots, bits).value))
  }

  /**
   * decode: 32 shots for the header, then as many more shots as the header
   * announces bits, unless that count is implausible; the bits read there
   * are packed into bytes.
   */
  function DecodeSpec(s: StegoImage, seed: int, start: int, end: int): Result<seq<Byte>>
    requires s.Valid() && ValidRange(start, end)
  {
    var img := s.image;
    var p0 := StartPicker(seed, img, start, end);
    match Shots(p0, 32)
    case Failure(e) => Failure(e)
    case Success((hs, p1)) =>
      RunInBounds(seed, img, start, end, 32);
      var length := BodyLength(HeaderValue(ReadBits(img, hs).value));
      if Implausible(length, ImageSpace(img.width, img.height, GetLayerCount(s), BitsPerPixel(start, end))) then
        Failure(NoMessage)
      else
        match Shots(p1, length)
        case Failure(e) => Failure(e)
        case Success((bs, _)) =>
          ShotsFresh(p1, length);
          FittingShotsInBounds(img, p1.gen, bs);
          Success(Pack(ReadBits(img, bs).value))
  }

  /**
   * outputSimulation: refuse a message that does not fit; otherwise black
   * out the image and lighten the pixel of every shot encode would make.
   */
  function SimulationSpec(img: Image, size: nat, delivered: nat, seed: int, start: int, end: int): (r: Result<Image>)
    requires img.Valid() && ValidRange(start, end) && delivered <= 8 * size
    ensures r.Success? ==> r.value.Valid() && r.value.width == img.width &&
                           r.value.height == img.height && r.value.kind == img.kind
  {
    if !WillMessageFit(size, img.width, img.height, Layers(img), BitsPerPixel(start, end)) then
      Failure(IllegalArgument)
    else
      var n := 32 + (8 * size - delivered);
      match Shots(StartPicker(seed, img, start, end), n)
      case Failure(e) => Failure(e)
      case Success((shots, _)) =>
        RunInBounds(seed, img, start, end, n);
        Success(Lighten(img, shots))
  }

  /** The blacked-out image with the pixel of every shot lightened. */
  function Lighten(img: Image, shots: seq<Shot>): (r: Image)
    requires img.Valid() && AllInBounds(img, shots)
    ensures r.Valid() && r.width == img.width && r.height == img.height && r.kind == img.kind
  {
    Mark(Blacken(img), shots).value
  }

  // ----- properties -----

  /** Without int overflow in the capacity, every colour layer and bit position fits in an int. */
  lemma {:induction false} NoOverflow(width: nat, height: nat, layers: int, bpp: int)
    requires width * height * 24 < TWO_31 && 0 <= layers <= 3 && 1 <= bpp <= 8
    ensures width * height < TWO_31 && width * height * layers < TWO_31
    ensures width * height * layers * bpp < TWO_31
  {
    var a := width * height;
    assert a * layers <= a * 3;
    assert a * layers * bpp <= a * 3 * 8;
  }

  /**
   * For a message and an image small enough that the capacity arithmetic does
   * not overflow, encode refuses only a message that does not fit, and
   * otherwise cannot hit a non-positive bound: its only other outcome is the
   * model's bound on redraws.
   */
  lemma {:induction false} EncodeOutcomes(img: Image, file: seq<Byte>, seed: int, start: int, end: int)
    requires img.Valid() && ValidRange(start, end)
    requires 8 * |file| + 50 < TWO_31 && img.width * img.height * 24 < TWO_31
    ensures EncodeSpec(img, file, 0, seed, start, end) == Failure(IllegalArgument) <==>
            !WillMessageFit(|file|, img.width, img.height, Layers(img), BitsPerPixel(start, end))
    ensures EncodeSpec(img, file, 0, seed, start, end).Failure? ==>
            EncodeSpec(img, file, 0, seed, start, end).error in {IllegalArgument, Hang}
  {
    if WillMessageFit(|file|, img.width, img.height, Layers(img), BitsPerPixel(start, end)) {
      FitHasLayers(img, |file|, start, end);
      ShotsNeverRefused(StartPicker(seed, img, start, end), |EncodedBits(file, 0)|);
    }
  }

  /** A message that fits needs at least one colour layer to hold it. */
  lemma {:induction false} FitHasLayers(img: Image, size: nat, start: int, end: int)
    requires img.Valid() && ValidRange(start, end)
    requires 8 * size + 50 < TWO_31 && img.width * img.height * 24 < TWO_31
    requires WillMessageFit(size, img.width, img.height, Layers(img), BitsPerPixel(start, end))
    ensures Layers(img) >= 1
  {
    var bpp := BitsPerPixel(start, end);
    NoOverflow(img.width, img.height, Layers(img), bpp);
    WillMessageFitMeaning(size, img.width, img.height, Layers(img), bpp);
  }

  /** With a positive layer count and bit range the generator never sees a non-positive bound. */
  lemma {:induction false} ShotsNeverRefused(p: Picker, n: nat)
    requires p.gen.Valid() && p.gen.width >= 1 && p.gen.height >= 1 && p.gen.numLayers >= 1
    requires 0 <= p.gen.start <= p.gen.end <= 7
    ensures Shots(p, n).Failure? ==> Shots(p, n).error == Hang
    decreases n
  {
    if n > 0 {
      ShotsNeverRefused(p, n - 1);
      match Shots(p, n - 1)
      case Failure(e) =>
      case Success((shots, p1)) =>
        FreeShotNeverRefused(p1.gen, p1.used);
    }
  }

  lemma {:induction false} FreeShotNeverRefused(g: Generator, used: set<Slot>)
    requires g.Valid() && g.width >= 1 && g.height >= 1 && g.numLayers >= 1 && 0 <= g.start <= g.end <= 7
    ensures FreeShot(g, used).Failure? ==> FreeShot(g, used).error == Hang
  {
    assert BitRange(g.start, g.end) >= 1;
    match Draw(g, 1)
    case Failure(e) =>
    case Success((sh, g')) =>
      ResampleNeverRefused(sh, g', used, MAX_REDRAWS);
  }

  lemma {:induction false} ResampleNeverRefused(sh: Shot, g: Generator, used: set<Slot>, fuel: nat)
    requires g.Valid() && Fits(g, sh)
    requires g.width >= 1 && g.height >= 1 && g.numLayers >= 1 && 0 <= g.start <= g.end <= 7
    ensures Resample(sh, g, used, fuel).Failure? ==> Resample(sh, g, used, fuel).error == Hang
    decreases fuel
  {
    if SlotOf(sh) in used && fuel > 0 {
      assert BitRange(g.start, g.end) >= 1;
      match Draw(g, 1)
      case Failure(e) =>
      case Success((sh', g')) =>
        ResampleNeverRefused(sh', g', used, fuel - 1);
    }
  }

  /**
   * The round trip: when the message fits, nothing overflows and encode
   * succeeds, decoding with the same seed and bit range gives back the
   * message.
   */
  lemma {:induction false} EncodeDecode(img: Image, file: seq<Byte>, seed: int, start: int, end: int)
    requires img.Valid() && ValidRange(start, end)
    requires 8 * |file| + 50 < TWO_31 && img.width * img.height * 24 < TWO_31
    requires EncodeSpec(img, file, 0, seed, start, end).Success?
    ensures DecodeSpec(EncodeSpec(img, file, 0, seed, start, end).value, seed, start, end) == Success(file)
  {
    var bits := EncodedBits(file, 0);
    var p0 := StartPicker(seed, img, start, end);
    var (shots, q) := Shots(p0, |bits|).value;
    RunUsable(seed, img, start, end, |bits|);
    var out := WriteBits(img, shots, bits).value;
    assert EncodeSpec(img, file, 0, seed, start, end) == Success(StegoImage(out));
    DecodeOfRun(img, file, seed, start, end, shots, q, out);
  }

  /**
   * The round trip with its condition spelled out: a message that fits comes
   * back unless the picker's redraws ran out (`Hang`), the one failure left
   * once the fit check passes.
   */
  lemma {:induction false} RoundTripUnlessHang(img: Image, file: seq<Byte>, seed: int, start: int, end: int)
    requires img.Valid() && ValidRange(start, end)
    requires 8 * |file| + 50 < TWO_31 && img.width * img.height * 24 < TWO_31
    requires WillMessageFit(|file|, img.width, img.height, Layers(img), BitsPerPixel(start, end))
    requires EncodeSpec(img, file, 0, seed, start, end) != Failure(Hang)
    ensures EncodeSpec(img, file, 0, seed, start, end).Success?
    ensures DecodeSpec(EncodeSpec(img, file, 0, seed, start, end).value, seed, start, end) == Success(file)
  {
    EncodeOutcomes(img, file, seed, start, end);
    EncodeDecode(img, file, seed, start, end);
  }

  /** Decoding the image that a complete run of encode wrote gives back the message. */
  lemma {:induction false} DecodeOfRun(img: Image, file: seq<Byte>, seed: int, start: int, end: int,
                    shots: seq<Shot>, q: Picker, out: Image)
    requires img.Valid() && ValidRange(start, end)
    requires 8 * |file| + 50 < TWO_31 && img.width * img.height * 24 < TWO_31
    requires WillMessageFit(|file|, img.width, img.height, Layers(img), BitsPerPixel(start, end))
    requires Shots(StartPicker(seed, img, start, end), 32 + 8 * |file|) == Success((shots, q))
    requires WriteBits(img, shots, EncodedBits(file, 0)) == Success(out)
    ensures StegoImage(out).Valid()
    ensures DecodeSpec(StegoImage(out), seed, start, end) == Success(file)
  {
    var hs, p1, bs, p2 := ReadBackRun(img, file, seed, start, end, shots, q, out);
    var s := StegoImage(out);
    LengthOfRun(img, file, start, end, out);
    DecodeSpecIs(s, seed, start, end, hs, p1, HeaderBits(I32(|file|)), bs, p2, MessageBits(file));
    PackMessage(file);
  }

  /** The run encode made is the run decode makes, and it reads back the header and the message bits. */
  lemma {:induction false} ReadBackRun(img: Image, file: seq<Byte>, seed: int, start: int, end: int,
                    shots: seq<Shot>, q: Picker, out: Image)
    returns (hs: seq<Shot>, p1: Picker, bs: seq<Shot>, p2: Picker)
    requires img.Valid() && ValidRange(start, end)
    requires Shots(StartPicker(seed, img, start, end), 32 + 8 * |file|) == Success((shots, q))
    requires WriteBits(img, shots, EncodedBits(file, 0)) == Success(out)
    ensures out.Valid() && out.width == img.width && out.height == img.height && out.kind == img.kind
    ensures StegoImage(out).Valid()
    ensures HeaderRead(StegoImage(out), seed, start, end, hs, p1, HeaderBits(I32(|file|)))
    ensures p1.gen.Valid() && Shots(p1, 8 * |file|) == Success((bs, p2))
    ensures ReadBits(out, bs) == Success(MessageBits(file))
  {
    hs, p1, bs, p2 := RunParts(seed, img, start, end, 8 * |file|, shots, q);
    ReadBackParts(img, file, shots, hs, bs, out);
    HeaderReadAfterWrite(seed, img, out, start, end, hs, p1, HeaderBits(I32(|file|)));
  }

  /** A run from the start, split after the header: its shots lie in the image and on distinct bits. */
  lemma {:induction false} RunParts(seed: int, img: Image, start: int, end: int, n: nat, shots: seq<Shot>, q: Picker)
    returns (hs: seq<Shot>, p1: Picker, bs: seq<Shot>, p2: Picker)
    requires img.Valid() && ValidRange(start, end)
    requires Shots(StartPicker(seed, img, start, end), 32 + n) == Success((shots, q))
    ensures AllInBounds(img, shots) && DistinctAddresses(shots)
    ensures shots == hs + bs && |hs| == 32 && |bs| == n
    ensures Shots(StartPicker(seed, img, start, end), 32) == Success((hs, p1))
    ensures p1.gen.Valid() && Shots(p1, n) == Success((bs, p2))
  {
    RunUsable(seed, img, start, end, 32 + n);
    hs, p1, bs, p2 := SplitRun(StartPicker(seed, img, start, end), 32, n, shots, q);
  }

  /**
   * Writing bits keeps the image's shape, so decode builds the picker encode
   * did: the header shots of encode are the header shots of decode.
   */
  lemma {:induction false} HeaderReadAfterWrite(seed: int, img: Image, out: Image, start: int, end: int,
                                                hs: seq<Shot>, p1: Picker, header: seq<bool>)
    requires img.Valid() && out.Valid() && ValidRange(start, end)
    requires out.width == img.width && out.height == img.height && out.kind == img.kind
    requires Shots(StartPicker(seed, img, start, end), 32) == Success((hs, p1))
    requires ReadBits(out, hs) == Success(header)
    ensures HeaderRead(StegoImage(out), seed, start, end, hs, p1, header)
  {
    assert StartPicker(seed, out, start, end) == StartPicker(seed, img, start, end);
  }

  /** The header and the message bits written at a run's shots are read back from the same shots. */
  lemma {:induction false} ReadBackParts(img: Image, file: seq<Byte>, shots: seq<Shot>, hs: seq<Shot>, bs: seq<Shot>, out: Image)
    requires img.Valid() && shots == hs + bs && |hs| == 32 && |bs| == 8 * |file|
    requires AllInBounds(img, shots) && DistinctAddresses(shots)
    requires WriteBits(img, shots, EncodedBits(file, 0)) == Success(out)
    ensures ReadBits(out, hs) == Success(HeaderBits(I32(|file|)))
    ensures ReadBits(out, bs) == Success(MessageBits(file))
  {
    var header := HeaderBits(I32(|file|));
    var body := MessageBits(file);
    assert EncodedBits(file, 0) == header + body by {
      assert body[0..] == body;
    }
    WriteThenReadParts(img, hs, bs, header, body);
  }

  /** The header of a message that fits announces its bit count, and decode finds it plausible. */
  lemma {:induction false} LengthOfRun(img: Image, file: seq<Byte>, start: int, end: int, out: Image)
    requires img.Valid() && ValidRange(start, end) && out.Valid()
    requires out.width == img.width && out.height == img.height && out.kind == img.kind
    requires 8 * |file| + 50 < TWO_31 && img.width * img.height * 24 < TWO_31
    requires WillMessageFit(|file|, img.width, img.height, Layers(img), BitsPerPixel(start, end))
    ensures BodyLength(HeaderValue(HeaderBits(I32(|file|)))) == 8 * |file|
    ensures !Implausible(8 * |file|, ImageSpace(out.width, out.height, GetLayerCount(StegoImage(out)),
                                                BitsPerPixel(start, end)))
  {
    HeaderRoundTrip(I32(|file|));
    assert I32(|file|) == |file|;
    var bpp := BitsPerPixel(start, end);
    NoOverflow(img.width, img.height, Layers(img), bpp);
    FittingLengthIsPlausible(|file|, img.width, img.height, Layers(img), bpp);
  }

  /** A run of a + b shots is a run of a shots followed by a run of b more. */
  lemma {:induction false} SplitRun(p: Picker, a: nat, b: nat, shots: seq<Shot>, q: Picker)
    returns (first: seq<Shot>, mid: Picker, rest: seq<Shot>, q': Picker)
    requires p.gen.Valid() && Shots(p, a + b) == Success((shots, q))
    ensures mid.gen.Valid() && mid.gen.SameBounds(p.gen)
    ensures Shots(p, a) == Success((first, mid)) && Shots(mid, b) == Success((rest, q'))
    ensures shots == first + rest
  {
    ShotsPrefixSucceeds(p, a, a + b);
    first, mid := Shots(p, a).value.0, Shots(p, a).value.1;
    ShotsSplit(p, a, b, a + b, first, mid);
    rest, q' := Shots(mid, b).value.0, Shots(mid, b).value.1;
  }

  /** A run of n shots that succeeds succeeded at every earlier length. */
  lemma {:induction false} ShotsPrefixSucceeds(p: Picker, k: nat, n: nat)
    requires p.gen.Valid() && k <= n && Shots(p, n).Success?
    ensures Shots(p, k).Success?
  {
    if Shots(p, k).Failure? {
      ShotsFailLonger(p, k, n);
    }
  }

  /** The simulation fails exactly when encode does, and for the same reason. */
  lemma {:induction false} SimulationMatchesEncode(img: Image, file: seq<Byte>, delivered: nat, seed: int, start: int, end: int)
    requires img.Valid() && ValidRange(start, end) && delivered <= 8 * |file|
    ensures SimulationSpec(img, |file|, delivered, seed, start, end).Success? <==>
            EncodeSpec(img, file, delivered, seed, start, end).Success?
    ensures SimulationSpec(img, |file|, delivered, seed, start, end).Failure? ==>
            SimulationSpec(img, |file|, delivered, seed, start, end).error ==
            EncodeSpec(img, file, delivered, seed, start, end).error
  {
  }

  /**
   * What the simulation shows: where encode would succeed, a pixel it leaves
   * black is one that encode does not change.
   */
  lemma {:induction false} SimulationCoversEncode(img: Image, file: seq<Byte>, seed: int, start: int, end: int, x: int, y: int)
    requires img.Valid() && ValidRange(start, end) && img.InBounds(x, y)
    requires EncodeSpec(img, file, 0, seed, start, end).Success?
    ensures SimulationSpec(img, |file|, 0, seed, start, end).Success?
    ensures SimulationSpec(img, |file|, 0, seed, start, end).value.RGB(x, y) == 0 ==>
            EncodeSpec(img, file, 0, seed, start, end).value.image.RGB(x, y) == img.RGB(x, y)
  {
    var shots := BothOfRun(img, file, seed, start, end);
    MarkHits(Blacken(img), shots, x, y);
    if !Hits(shots, x, y) {
      WriteBitsOutsideHits(img, shots, EncodedBits(file, 0), x, y);
    }
  }

  /** Where encode succeeds, encode and the simulation use the same run of shots. */
  lemma {:induction false} BothOfRun(img: Image, file: seq<Byte>, seed: int, start: int, end: int) returns (shots: seq<Shot>)
    requires img.Valid() && ValidRange(start, end)
    requires EncodeSpec(img, file, 0, seed, start, end).Success?
    ensures |shots| == |EncodedBits(file, 0)| && AllInBounds(img, shots) && DistinctAddresses(shots)
    ensures AllInBounds(Blacken(img), shots)
    ensures SimulationSpec(img, |file|, 0, seed, start, end) == Success(Mark(Blacken(img), shots).value)
    ensures EncodeSpec(img, file, 0, seed, start, end) == Success(StegoImage(WriteBits(img, shots, EncodedBits(file, 0)).value))
  {
    var n: nat := 32 + 8 * |file|;
    var none: nat := 0;
    var p0 := StartPicker(seed, img, start, end);
    if !WillMessageFit(|file|, img.width, img.height, Layers(img), BitsPerPixel(start, end)) {
      EncodeRefused(img, file, none, seed, start, end);
      assert false;
    }
    if Shots(p0, n).Failure? {
      EncodeShotFails(img, file, none, seed, start, end, n);
      assert false;
    }
    shots := Shots(p0, n).value.0;
    var q := Shots(p0, n).value.1;
    RunUsable(seed, img, start, end, n);
    assert AllInBounds(Blacken(img), shots);
    EncodeSpecIs(img, file, 0, seed, start, end, shots, q, WriteBits(img, shots, EncodedBits(file, 0)).value);
    SimulationSpecIs(img, |file|, 0, seed, start, end, shots, q, Mark(Blacken(img), shots).value);
  }

  // ----- the outcomes of the spec functions, one lemma per exit of the Java code -----

  lemma {:induction false} EncodeRefused(img: Image, file: seq<Byte>, delivered: nat, seed: int, start: int, end: int)
    requires img.Valid() && ValidRange(start, end) && delivered <= 8 * |file|
    requires !WillMessageFit(|file|, img.width, img.height, Layers(img), BitsPerPixel(start, end))
    ensures EncodeSpec(img, file, delivered, seed, start, end) == Failure(IllegalArgument)
  {
  }

  /** Shot k of encode cannot be made: encode fails with that error. */
  lemma {:induction false} EncodeShotFails(img: Image, file: seq<Byte>, delivered: nat, seed: int, start: int, end: int, k: nat)
    requires img.Valid() && ValidRange(start, end) && delivered <= 8 * |file|
    requires WillMessageFit(|file|, img.width, img.height, Layers(img), BitsPerPixel(start, end))
    requires k <= |EncodedBits(file, delivered)|
    requires Shots(StartPicker(seed, img, start, end), k).Failure?
    ensures EncodeSpec(img, file, delivered, seed, start, end) ==
            Failure(Shots(StartPicker(seed, img, start, end), k).error)
  {
    ShotsFailLonger(StartPicker(seed, img, start, end), k, |EncodedBits(file, delivered)|);
  }

  lemma {:induction false} EncodeSpecIs(img: Image, file: seq<Byte>, delivered: nat, seed: int, start: int, end: int,
                     shots: seq<Shot>, p: Picker, out: Image)
    requires img.Valid() && ValidRange(start, end) && delivered <= 8 * |file|
    requires WillMessageFit(|file|, img.width, img.height, Layers(img), BitsPerPixel(start, end))
    requires Shots(StartPicker(seed, img, start, end), |EncodedBits(file, delivered)|) == Success((shots, p))
    requires WriteBits(img, shots, EncodedBits(file, delivered)) == Success(out)
    ensures EncodeSpec(img, file, delivered, seed, start, end) == Success(StegoImage(out))
  {
  }

  /** A header shot cannot be made: decode fails with that error. */
  lemma {:induction false} DecodeHeaderFails(s: StegoImage, seed: int, start: int, end: int, k: nat)
    requires s.Valid() && ValidRange(start, end) && k <= 32
    requires Shots(StartPicker(seed, s.image, start, end), k).Failure?
    ensures DecodeSpec(s, seed, start, end) == Failure(Shots(StartPicker(seed, s.image, start, end), k).error)
  {
    ShotsFailLonger(StartPicker(seed, s.image, start, end), k, 32);
  }

  /** The 32 header shots, the picker after them and the bits read there. */
  ghost predicate HeaderRead(s: StegoImage, seed: int, start: int, end: int,
                             hs: seq<Shot>, p1: Picker, header: seq<bool>)
    requires s.Valid() && ValidRange(start, end)
  {
    Shots(StartPicker(seed, s.image, start, end), 32) == Success((hs, p1)) &&
    ReadBits(s.image, hs) == Success(header)
  }

  lemma {:induction false} DecodeNoMessage(s: StegoImage, seed: int, start: int, end: int, hs: seq<Shot>, p1: Picker, header: seq<bool>)
    requires s.Valid() && ValidRange(start, end) && HeaderRead(s, seed, start, end, hs, p1, header)
    requires Implausible(BodyLength(HeaderValue(header)),
                         ImageSpace(s.image.width, s.image.height, GetLayerCount(s), BitsPerPixel(start, end)))
    ensures DecodeSpec(s, seed, start, end) == Failure(NoMessage)
  {
  }

  /** Body shot k cannot be made: decode fails with that error. */
  lemma {:induction false} DecodeBodyFails(s: StegoImage, seed: int, start: int, end: int, hs: seq<Shot>, p1: Picker,
                        header: seq<bool>, k: nat)
    requires s.Valid() && ValidRange(start, end) && HeaderRead(s, seed, start, end, hs, p1, header)
    requires !Implausible(BodyLength(HeaderValue(header)),
                          ImageSpace(s.image.width, s.image.height, GetLayerCount(s), BitsPerPixel(start, end)))
    requires k <= BodyLength(HeaderValue(header))
    requires p1.gen.Valid() && Shots(p1, k).Failure?
    ensures DecodeSpec(s, seed, start, end) == Failure(Shots(p1, k).error)
  {
    ShotsFailLonger(p1, k, BodyLength(HeaderValue(header)));
  }

  lemma {:induction false} DecodeSpecIs(s: StegoImage, seed: int, start: int, end: int, hs: seq<Shot>, p1: Picker,
                     header: seq<bool>, bs: seq<Shot>, p2: Picker, body: seq<bool>)
    requires s.Valid() && ValidRange(start, end) && HeaderRead(s, seed, start, end, hs, p1, header)
    requires !Implausible(BodyLength(HeaderValue(header)),
                          ImageSpace(s.image.width, s.image.height, GetLayerCount(s), BitsPerPixel(start, end)))
    requires p1.gen.Valid() && Shots(p1, BodyLength(HeaderValue(header))) == Success((bs, p2))
    requires ReadBits(s.image, bs) == Success(body)
    ensures DecodeSpec(s, seed, start, end) == Success(Pack(body))
  {
  }

  lemma {:induction false} SimulationRefused(img: Image, size: nat, delivered: nat, seed: int, start: int, end: int)
    requires img.Valid() && ValidRange(start, end) && delivered <= 8 * size
    requires !WillMessageFit(size, img.width, img.height, Layers(img), BitsPerPixel(start, end))
    ensures SimulationSpec(img, size, delivered, seed, start, end) == Failure(IllegalArgument)
  {
  }

  /** A run whose k-th shot cannot be made fails, for any longer run, with that error. */
  lemma {:induction false} RunFailsAt(p: Picker, k: nat, n: nat, e: Error)
    requires p.gen.Valid() && k <= n && Shots(p, k) == Failure(e)
    ensures Shots(p, n) == Failure(e)
  {
    ShotsFailLonger(p, k, n);
  }

  /** Shot k of the simulation cannot be made: the simulation fails with that error. */
  lemma {:induction false} SimulationOfFailedRun(img: Image, size: nat, delivered: nat, seed: int, start: int, end: int, e: Error)
    requires img.Valid() && ValidRange(start, end) && delivered <= 8 * size
    requires WillMessageFit(size, img.width, img.height, Layers(img), BitsPerPixel(start, end))
    requires Shots(StartPicker(seed, img, start, end), 32 + (8 * size - delivered)) == Failure(e)
    ensures SimulationSpec(img, size, delivered, seed, start, end) == Failure(e)
  {
  }

  lemma {:induction false} SimulationSpecIs(img: Image, size: nat, delivered: nat, seed: int, start: int, end: int,
                         shots: seq<Shot>, p: Picker, out: Image)
    requires img.Valid() && ValidRange(start, end) && delivered <= 8 * size
    requires WillMessageFit(size, img.width, img.height, Layers(img), BitsPerPixel(start, end))
    requires Shots(StartPicker(seed, img, start, end), 32 + (8 * size - delivered)) == Success((shots, p))
    requires Mark(Blacken(img), shots) == Success(out)
    ensures SimulationSpec(img, size, delivered, seed, start, end) == Success(out)
  {
  }

  // ----- the occupancy array and the generator object -----

  /** haveWritten holds true exactly at the used slots. */
  ghost predicate Mirrors(a: array4<bool>, used: set<Slot>)
    reads a
  {
    forall i, j, k, l :: 0 <= i < a.Length0 && 0 <= j < a.Length1 && 0 <= k < a.Length2 && 0 <= l < a.Length3 ==>
      (a[i, j, k, l] <==> (i, j, k, l) in used)
  }

  /** The loops that set every entry of a fresh `haveWritten[imgX][imgY][3][8]` to false. */
  method Clear(a: array4<bool>)
    requires a.Length2 == 3 && a.Length3 == 8
    modifies a
    ensures Mirrors(a, {})
  {
    for i := 0 to a.Length0
      invariant forall i', j, k, l :: 0 <= i' < i && 0 <= j < a.Length1 && 0 <= k < 3 && 0 <= l < 8 ==> !a[i', j, k, l]
    {
      for j := 0 to a.Length1
        invariant forall i', j', k, l :: 0 <= i' < i && 0 <= j' < a.Length1 && 0 <= k < 3 && 0 <= l < 8 ==> !a[i', j', k, l]
        invariant forall j', k, l :: 0 <= j' < j && 0 <= k < 3 && 0 <= l < 8 ==> !a[i, j', k, l]
      {
        for l := 0 to 8
          invariant forall i', j', k, l' :: 0 <= i' < i && 0 <= j' < a.Length1 && 0 <= k < 3 && 0 <= l' < 8 ==> !a[i', j', k, l']
          invariant forall j', k, l' :: 0 <= j' < j && 0 <= k < 3 && 0 <= l' < 8 ==> !a[i, j', k, l']
          invariant forall k, l' :: 0 <= k < 3 && 0 <= l' < l ==> !a[i, j, k, l']
        {
          a[i, j, 0, l] := false;
          a[i, j, 1, l] := false;
          a[i, j, 2, l] := false;
        }
      }
    }
  }

  /**
   * A run in progress: the shots made so far are the first ones of the
   * picker p0; the generator object holds the generator state after them
   * and haveWritten marks exactly the used slots.
   */
  ghost predicate Placed(p0: Picker, shots: seq<Shot>, rgen: PRandom, a: array4<bool>, used: set<Slot>)
    reads rgen, rgen.random, a
  {
    p0.gen.Valid() && Usable(p0.gen) &&
    a.Length0 == p0.gen.width && a.Length1 == p0.gen.height && a.Length2 == 3 && a.Length3 == 8 &&
    Shots(p0, |shots|) == Success((shots, Picker(rgen.Model(), used))) && Mirrors(a, used)
  }

  /** Where a run has got to, a new run can start: with no shots yet, from the same generator and used bits. */
  lemma {:induction false} PlacedRestart(p0: Picker, shots: seq<Shot>, rgen: PRandom, a: array4<bool>, used: set<Slot>)
    requires Placed(p0, shots, rgen, a, used)
    ensures Placed(Picker(rgen.Model(), used), [], rgen, a, used)
    ensures rgen.Model().SameBounds(p0.gen)
  {
  }

  /** `sh = rgen.getShot(); while (haveWritten[sh...]) sh = rgen.getShot();` */
  method DrawFree(rgen: PRandom, a: array4<bool>, ghost used: set<Slot>) returns (r: Result<Shot>)
    requires rgen.Model().Valid() && Usable(rgen.Model()) && Mirrors(a, used)
    requires a.Length0 == rgen.Model().width && a.Length1 == rgen.Model().height
    requires a.Length2 == 3 && a.Length3 == 8
    modifies rgen, rgen.random
    ensures r.Success? ==> FreeShot(old(rgen.Model()), used) == Success((r.value, rgen.Model()))
    ensures r.Failure? ==> FreeShot(old(rgen.Model()), used) == Failure(r.error)
  {
    var sh := GetShot(rgen);
    if sh.Failure? {
      return sh;
    }
    r := SkipTaken(rgen, a, used, sh.value);
  }

  /** The redraw loop: while the shot's slot is marked in haveWritten, draw again. */
  method SkipTaken(rgen: PRandom, a: array4<bool>, ghost used: set<Slot>, s0: Shot) returns (r: Result<Shot>)
    requires rgen.Model().Valid() && Usable(rgen.Model()) && Fits(rgen.Model(), s0) && Mirrors(a, used)
    requires a.Length0 == rgen.Model().width && a.Length1 == rgen.Model().height
    requires a.Length2 == 3 && a.Length3 == 8
    modifies rgen, rgen.random
    ensures r.Success? ==> Resample(s0, old(rgen.Model()), used, MAX_REDRAWS) == Success((r.value, rgen.Model()))
    ensures r.Failure? ==> Resample(s0, old(rgen.Model()), used, MAX_REDRAWS) == Failure(r.error)
  {
    ghost var g0 := rgen.Model();
    ghost var goal := Resample(s0, g0, used, MAX_REDRAWS);
    var s := s0;
    var draws: nat := 0;
    MirrorsAt(a, used, s);
    while a[s.x, s.y, s.layer, s.bitPos]
      invariant rgen.Model().Valid() && rgen.Model().SameBounds(g0) && Fits(rgen.Model(), s)
      invariant draws <= MAX_REDRAWS
      invariant a[s.x, s.y, s.layer, s.bitPos] <==> SlotOf(s) in used
      invariant Resample(s, rgen.Model(), used, MAX_REDRAWS - draws) == goal
      decreases MAX_REDRAWS - draws
    {
      if draws == MAX_REDRAWS {
        return Failure(Hang);
      }
      var next := Redraw(rgen, g0, used, s, MAX_REDRAWS - draws);
      if next.Failure? {
        return next;
      }
      s := next.value;
      draws := draws + 1;
      MirrorsAt(a, used, s);
    }
    return Success(s);
  }

  /** One pass of the redraw loop: the shot's slot is taken, so the next shot is drawn. */
  method Redraw(rgen: PRandom, ghost g0: Generator, ghost used: set<Slot>, s: Shot, ghost fuel: nat)
    returns (r: Result<Shot>)
    requires rgen.Model().Valid() && rgen.Model().SameBounds(g0) && Fits(rgen.Model(), s)
    requires SlotOf(s) in used && fuel > 0
    modifies rgen, rgen.random
    ensures r.Failure? ==> Resample(s, old(rgen.Model()), used, fuel) == Failure(r.error)
    ensures r.Success? ==> rgen.Model().Valid() && rgen.Model().SameBounds(g0) && Fits(rgen.Model(), r.value) &&
                           Resample(s, old(rgen.Model()), used, fuel) == Resample(r.value, rgen.Model(), used, fuel - 1)
  {
    ResampleRetry(s, rgen.Model(), used, fuel);
    r := GetShot(rgen);
  }

  /** haveWritten at a shot's slot says whether the slot is used. */
  lemma {:induction false} MirrorsAt(a: array4<bool>, used: set<Slot>, s: Shot)
    requires Mirrors(a, used)
    requires 0 <= s.x < a.Length0 && 0 <= s.y < a.Length1 && 0 <= s.layer < a.Length2 && 0 <= s.bitPos < a.Length3
    ensures a[s.x, s.y, s.layer, s.bitPos] <==> SlotOf(s) in used
  {
  }

  /** A taken shot is redrawn: the redraw loop goes on from the next draw. */
  lemma {:induction false} ResampleRetry(s: Shot, g: Generator, used: set<Slot>, fuel: nat)
    requires g.Valid() && Fits(g, s) && SlotOf(s) in used && fuel > 0
    ensures Draw(g, 1).Failure? ==> Resample(s, g, used, fuel) == Failure(Draw(g, 1).error)
    ensures Draw(g, 1).Success? ==>
              Resample(s, g, used, fuel) == Resample(Draw(g, 1).value.0, Draw(g, 1).value.1, used, fuel - 1)
  {
  }

  /** `rgen.getShot()`, stated with `Draw`. */
  method GetShot(rgen: PRandom) returns (r: Result<Shot>)
    requires rgen.Model().Valid()
    modifies rgen, rgen.random
    ensures r.Success? ==> Draw(old(rgen.Model()), 1) == Success((r.value, rgen.Model()))
    ensures r.Failure? ==> Draw(old(rgen.Model()), 1) == Failure(r.error)
  {
    DrawIsGetShot(rgen.Model());
    r := rgen.GetShot();
  }

  /** One shot of a run: a free shot, and its slot marked in haveWritten. */
  method Take(rgen: PRandom, a: array4<bool>, ghost p0: Picker, ghost shots: seq<Shot>, ghost used: set<Slot>)
    returns (r: Result<Shot>, ghost used': set<Slot>)
    requires Placed(p0, shots, rgen, a, used)
    modifies rgen, rgen.random, a
    ensures r.Failure? ==> Shots(p0, |shots| + 1) == Failure(r.error)
    ensures r.Success? ==> Placed(p0, shots + [r.value], rgen, a, used') && Fits(p0.gen, r.value)
  {
    r := Pick(rgen, a, p0, shots, used);
    used' := used;
    if r.Failure? {
      return;
    }
    used' := Claim(rgen, a, p0, shots, used, r.value);
  }

  /** The next shot of a run: drawn, and redrawn while its slot is taken. */
  method Pick(rgen: PRandom, a: array4<bool>, ghost p0: Picker, ghost shots: seq<Shot>, ghost used: set<Slot>)
    returns (r: Result<Shot>)
    requires Placed(p0, shots, rgen, a, used)
    modifies rgen, rgen.random
    ensures r.Failure? ==> Shots(p0, |shots| + 1) == Failure(r.error)
    ensures r.Success? ==> Picked(p0, shots, rgen, a, used, r.value)
  {
    ghost var g := rgen.Model();
    ShotsNext(p0, shots, g, used);
    r := DrawFree(rgen, a, used);
  }

  /** A shot has been picked after `shots` but its slot is not yet marked. */
  ghost predicate Picked(p0: Picker, shots: seq<Shot>, rgen: PRandom, a: array4<bool>, used: set<Slot>, s: Shot)
    reads rgen, rgen.random, a
  {
    p0.gen.Valid() && Usable(p0.gen) && Fits(p0.gen, s) &&
    a.Length0 == p0.gen.width && a.Length1 == p0.gen.height && a.Length2 == 3 && a.Length3 == 8 &&
    Shots(p0, |shots| + 1) == Success((shots + [s], Picker(rgen.Model(), used + {SlotOf(s)}))) && Mirrors(a, used)
  }

  /** Marks the slot of a picked shot. */
  method Claim(rgen: PRandom, a: array4<bool>, ghost p0: Picker, ghost shots: seq<Shot>, ghost used: set<Slot>, s: Shot)
    returns (ghost used': set<Slot>)
    requires Picked(p0, shots, rgen, a, used, s)
    modifies a
    ensures Placed(p0, shots + [s], rgen, a, used') && Fits(p0.gen, s)
  {
    MarkSlot(a, s, used);
    used' := used + {SlotOf(s)};
  }

  /** `haveWritten[x][y][layer][bitpos] = true`. */
  method MarkSlot(a: array4<bool>, s: Shot, ghost used: set<Slot>)
    requires Mirrors(a, used)
    requires 0 <= s.x < a.Length0 && 0 <= s.y < a.Length1 && 0 <= s.layer < a.Length2 && 0 <= s.bitPos < a.Length3
    modifies a
    ensures Mirrors(a, used + {SlotOf(s)})
  {
    a[s.x, s.y, s.layer, s.bitPos] := true;
  }

  /** Bits the header and message loops of encode have written so far. */
  ghost predicate Written(cover: Image, file: seq<Byte>, delivered: nat, p0: Picker,
                          shots: seq<Shot>, used: set<Slot>, rgen: PRandom, a: array4<bool>, img: Image)
    reads rgen, rgen.random, a
  {
    cover.Valid() && delivered <= 8 * |file| && |shots| <= |EncodedBits(file, delivered)| &&
    Placed(p0, shots, rgen, a, used) && p0.gen.width == cover.width && p0.gen.height == cover.height &&
    WriteBits(cover, shots, EncodedBits(file, delivered)[..|shots|]) == Success(img)
  }

  /** Before the header loop of encode: nothing drawn, nothing written. */
  lemma {:induction false} StartWritten(cover: Image, file: seq<Byte>, delivered: nat, p0: Picker, rgen: PRandom, a: array4<bool>)
    requires cover.Valid() && delivered <= 8 * |file| && p0.gen.Valid() && Usable(p0.gen) && p0.used == {}
    requires p0.gen.width == cover.width && p0.gen.height == cover.height && rgen.Model() == p0.gen
    requires a.Length0 == p0.gen.width && a.Length1 == p0.gen.height && a.Length2 == 3 && a.Length3 == 8
    requires Mirrors(a, {})
    ensures Written(cover, file, delivered, p0, [], {}, rgen, a, cover)
  {
    assert EncodedBits(file, delivered)[..0] == [];
  }

  /** After the last bit, encode has made the whole run and written every bit of it. */
  lemma {:induction false} WrittenAll(cover: Image, file: seq<Byte>, delivered: nat, p0: Picker,
                   shots: seq<Shot>, used: set<Slot>, rgen: PRandom, a: array4<bool>, img: Image)
    requires Written(cover, file, delivered, p0, shots, used, rgen, a, img)
    requires |shots| == |EncodedBits(file, delivered)|
    ensures Shots(p0, |EncodedBits(file, delivered)|) == Success((shots, Picker(rgen.Model(), used)))
    ensures WriteBits(cover, shots, EncodedBits(file, delivered)) == Success(img)
  {
    var bits := EncodedBits(file, delivered);
    assert bits[..|shots|] == bits;
  }

  /** A shot placed and its bit written: encode has written one more bit. */
  lemma {:induction false} WrittenNext(cover: Image, file: seq<Byte>, delivered: nat, p0: Picker,
                    shots: seq<Shot>, used: set<Slot>, rgen: PRandom, a: array4<bool>, img: Image)
    requires cover.Valid() && delivered <= 8 * |file| && |shots| <= |EncodedBits(file, delivered)|
    requires Placed(p0, shots, rgen, a, used) && p0.gen.width == cover.width && p0.gen.height == cover.height
    requires WriteBits(cover, shots, EncodedBits(file, delivered)[..|shots|]) == Success(img)
    ensures Written(cover, file, delivered, p0, shots, used, rgen, a, img)
  {
  }

  /** A shot of a run writes the next bit: an in-bounds write at the shot. */
  lemma {:induction false} WriteNext(cover: Image, bits: seq<bool>, p0: Picker, shots: seq<Shot>, img: Image, s: Shot, bit: bool)
    requires cover.Valid() && |shots| < |bits|
    requires WriteBits(cover, shots, bits[..|shots|]) == Success(img)
    requires p0.gen.width == cover.width && p0.gen.height == cover.height && Fits(p0.gen, s)
    requires bit == bits[|shots|]
    ensures img.Valid() && img.InBounds(s.x, s.y)
    ensures WriteBits(cover, shots + [s], bits[..|shots| + 1]) == Success(SetPixelBit(img, s.x, s.y, s.layer, s.bitPos, bit))
  {
    TakeNext(bits, |shots|);
    WriteStep(cover, shots, bits[..|shots|], img, s, bit);
  }

  class HideSeek {
    /** mStartBits, mEndBits: the bit positions shots may use. */
    const startBits: int
    const endBits: int

    constructor (start: int, end: int)
      requires ValidRange(start, end)
      ensures startBits == start && endBits == end
    {
      startBits := start;
      endBits := end;
    }

    /** The Java constructor: bit ranges outside 0..7 or inverted are refused. */
    static method New(start: int, end: int) returns (r: Result<HideSeek>)
      ensures r.Failure? <==> !ValidRange(start, end)
      ensures r.Failure? ==> r.error == IllegalArgument
      ensures r.Success? ==> fresh(r.value) && r.value.startBits == start && r.value.endBits == end
    {
      if start > 7 || start < 0 {
        return Failure(IllegalArgument);
      }
      if end > 7 || end < 0 {
        return Failure(IllegalArgument);
      }
      if start > end {
        return Failure(IllegalArgument);
      }
      var h := new HideSeek(start, end);
      return Success(h);
    }

    /** The default constructor: bit range 0..0. */
    static method Default() returns (h: HideSeek)
      ensures fresh(h) && h.startBits == 0 && h.endBits == 0
    {
      h := new HideSeek(0, 0);
    }

    /** willMessageFit. */
    function WillFit(message: InsertableMessage, img: Image): bool
      requires img.Valid()
    {
      WillMessageFit(message.GetSize(), img.width, img.height, Layers(img), BitsPerPixel(startBits, endBits))
    }

    /** encode (without LSB matching). */
    method Encode(message: InsertableMessage, cover: Image, seed: int) returns (r: Result<StegoImage>)
      requires ValidRange(startBits, endBits) && cover.Valid() && message.Valid()
      modifies message
      ensures r == EncodeSpec(cover, message.file, old(message.Delivered()), seed, startBits, endBits)
      ensures !WillFit(message, cover) ==> unchanged(message)
      ensures r.Success? ==> message.Valid() && message.Delivered() == 8 * |message.file|
    {
      ghost var delivered := message.Delivered();
      ghost var file := message.file;
      var imgX := cover.width;
      var imgY := cover.height;
      var haveWritten := new bool[imgX, imgY, 3, 8];
      Clear(haveWritten);
      if !WillFit(message, cover) {
        EncodeRefused(cover, file, delivered, seed, startBits, endBits);
        return Failure(IllegalArgument);
      }
      var rgen := new PRandom(seed, imgX, imgY, Layers(cover), startBits, endBits);
      r := EncodeFitting(message, cover, seed, rgen, haveWritten, file, delivered);
    }

    /** encode once the message is known to fit: the header loop, then the message loop. */
    method EncodeFitting(message: InsertableMessage, cover: Image, seed: int, rgen: PRandom, haveWritten: array4<bool>,
                         ghost file: seq<Byte>, ghost delivered: nat)
      returns (r: Result<StegoImage>)
      requires ValidRange(startBits, endBits) && cover.Valid()
      requires message.Valid() && message.file == file && message.Delivered() == delivered
      requires WillMessageFit(|file|, cover.width, cover.height, Layers(cover), BitsPerPixel(startBits, endBits))
      requires rgen.Model() == StartPicker(seed, cover, startBits, endBits).gen
      requires haveWritten.Length0 == cover.width && haveWritten.Length1 == cover.height
      requires haveWritten.Length2 == 3 && haveWritten.Length3 == 8 && Mirrors(haveWritten, {})
      modifies rgen, rgen.random, haveWritten, message
      ensures r == EncodeSpec(cover, file, delivered, seed, startBits, endBits)
      ensures r.Success? ==> message.Valid() && !message.NotFinished()
    {
      ghost var p0 := StartPicker(seed, cover, startBits, endBits);
      var out, shots, q := EncodeRun(message, cover, p0, rgen, haveWritten, file, delivered);
      if out.Failure? {
        EncodeShotFails(cover, file, delivered, seed, startBits, endBits, |shots| + 1);
        return Failure(out.error);
      }
      EncodeSpecIs(cover, file, delivered, seed, startBits, endBits, shots, q, out.value);
      return Success(StegoImage(out.value));
    }

    /** Both loops of encode, from a fresh generator and an empty occupancy array. */
    method EncodeRun(message: InsertableMessage, cover: Image, ghost p0: Picker, rgen: PRandom, haveWritten: array4<bool>,
                     ghost file: seq<Byte>, ghost delivered: nat)
      returns (r: Result<Image>, ghost shots: seq<Shot>, ghost q: Picker)
      requires cover.Valid() && message.Valid() && message.file == file && message.Delivered() == delivered
      requires p0.gen.Valid() && Usable(p0.gen) && p0.used == {}
      requires p0.gen.width == cover.width && p0.gen.height == cover.height && rgen.Model() == p0.gen
      requires haveWritten.Length0 == cover.width && haveWritten.Length1 == cover.height
      requires haveWritten.Length2 == 3 && haveWritten.Length3 == 8 && Mirrors(haveWritten, {})
      modifies rgen, rgen.random, haveWritten, message
      ensures r.Failure? ==> |shots| < |EncodedBits(file, delivered)| && Shots(p0, |shots| + 1) == Failure(r.error)
      ensures r.Success? ==> Shots(p0, |EncodedBits(file, delivered)|) == Success((shots, q))
      ensures r.Success? ==> WriteBits(cover, shots, EncodedBits(file, delivered)) == Success(r.value)
      ensures r.Success? ==> message.Valid() && !message.NotFinished()
    {
      StartWritten(cover, file, delivered, p0, rgen, haveWritten);
      var messageSize := I32(message.GetSize());
      var img, hs, used := EncodeHeader(cover, file, delivered, p0, rgen, haveWritten, messageSize);
      if img.Failure? {
        return Failure(img.error), hs, p0;
      }
      var out, shots', used' := EncodeBody(cover, file, delivered, p0, hs, used, rgen, haveWritten, img.value, message);
      if out.Failure? {
        return Failure(out.error), shots', p0;
      }
      WrittenAll(cover, file, delivered, p0, shots', used', rgen, haveWritten, out.value);
      return out, shots', Picker(rgen.Model(), used');
    }

    /** The header loop of encode: the 32 bits of the message size, least significant first. */
    method EncodeHeader(cover: Image, ghost file: seq<Byte>, ghost delivered: nat, ghost p0: Picker,
                        rgen: PRandom, haveWritten: array4<bool>, messageSize: int)
      returns (r: Result<Image>, ghost shots: seq<Shot>, ghost used: set<Slot>)
      requires Written(cover, file, delivered, p0, [], {}, rgen, haveWritten, cover)
      requires messageSize == I32(|file|)
      modifies rgen, rgen.random, haveWritten
      ensures r.Failure? ==> |shots| < 32 && Shots(p0, |shots| + 1) == Failure(r.error)
      ensures r.Success? ==> |shots| == 32 && Written(cover, file, delivered, p0, shots, used, rgen, haveWritten, r.value)
    {
      shots, used := [], {};
      var img := cover;
      for i := 0 to 32
        invariant |shots| == i
        invariant Written(cover, file, delivered, p0, shots, used, rgen, haveWritten, img)
      {
        var next;
        ghost var used';
        next, used' := PutHeaderBit(cover, file, delivered, p0, shots, used, rgen, haveWritten, img, messageSize, i);
        if next.Failure? {
          return Failure(next.error), shots, used;
        }
        shots, used := shots + [next.value.0], used';
        img := next.value.1;
      }
      r := Success(img);
    }

    /** The message loop of encode: one bit per pass until the message is finished. */
    method EncodeBody(ghost cover: Image, ghost file: seq<Byte>, ghost delivered: nat, ghost p0: Picker,
                      ghost shots0: seq<Shot>, ghost used0: set<Slot>, rgen: PRandom, haveWritten: array4<bool>,
                      img0: Image, message: InsertableMessage)
      returns (r: Result<Image>, ghost shots: seq<Shot>, ghost used: set<Slot>)
      requires Written(cover, file, delivered, p0, shots0, used0, rgen, haveWritten, img0)
      requires message.Valid() && message.file == file && delivered <= message.Delivered()
      requires |shots0| == 32 + (message.Delivered() - delivered)
      modifies rgen, rgen.random, haveWritten, message
      ensures r.Failure? ==> |shots| < |EncodedBits(file, delivered)| && Shots(p0, |shots| + 1) == Failure(r.error)
      ensures r.Success? ==>
                |shots| == |EncodedBits(file, delivered)| &&
                Written(cover, file, delivered, p0, shots, used, rgen, haveWritten, r.value)
      ensures r.Success? ==> message.Valid() && !message.NotFinished()
    {
      shots, used := shots0, used0;
      var img := img0;
      while message.NotFinished()
        invariant message.Valid() && message.file == file
        invariant delivered <= message.Delivered() <= 8 * |file|
        invariant |shots| == 32 + (message.Delivered() - delivered)
        invariant Written(cover, file, delivered, p0, shots, used, rgen, haveWritten, img)
        decreases 8 * |file| - message.Delivered()
      {
        var next;
        ghost var used';
        next, used' := PutMessageBit(cover, file, delivered, p0, shots, used, rgen, haveWritten, img, message);
        if next.Failure? {
          return Failure(next.error), shots, used;
        }
        shots, used := shots + [next.value.0], used';
        img := next.value.1;
      }
      r := Success(img);
    }

    /** Pass i of the header loop of encode: a free shot, marked, then bit i of the size written there. */
    method PutHeaderBit(ghost cover: Image, ghost file: seq<Byte>, ghost delivered: nat, ghost p0: Picker,
                        ghost shots: seq<Shot>, ghost used: set<Slot>, rgen: PRandom, haveWritten: array4<bool>,
                        img: Image, messageSize: int, i: nat) returns (r: Result<(Shot, Image)>, ghost used': set<Slot>)
      requires Written(cover, file, delivered, p0, shots, used, rgen, haveWritten, img) && |shots| == i < 32
      requires messageSize == I32(|file|)
      modifies rgen, rgen.random, haveWritten
      ensures r.Failure? ==> Shots(p0, |shots| + 1) == Failure(r.error)
      ensures r.Success? ==>
                Written(cover, file, delivered, p0, shots + [r.value.0], used', rgen, haveWritten, r.value.1)
    {
      var sh;
      sh, used' := Take(rgen, haveWritten, p0, shots, used);
      if sh.Failure? {
        return Failure(sh.error), used';
      }
      var s := sh.value;
      var bit := JavaBit(messageSize, i);
      EncodedHeaderBit(file, delivered, i);
      WriteNext(cover, EncodedBits(file, delivered), p0, shots, img, s, bit);
      r := Success((s, SetPixelBit(img, s.x, s.y, s.layer, s.bitPos, bit)));
    }

    /**
     * One pass of the message loop of encode: a free shot, the next message
     * bit written there, and then the shot's slot marked.
     */
    method PutMessageBit(ghost cover: Image, ghost file: seq<Byte>, ghost delivered: nat, ghost p0: Picker,
                         ghost shots: seq<Shot>, ghost used: set<Slot>, rgen: PRandom, haveWritten: array4<bool>,
                         img: Image, message: InsertableMessage) returns (r: Result<(Shot, Image)>, ghost used': set<Slot>)
      requires Written(cover, file, delivered, p0, shots, used, rgen, haveWritten, img)
      requires message.Valid() && message.file == file && !message.finished
      requires delivered <= message.Delivered() && |shots| == 32 + (message.Delivered() - delivered)
      modifies rgen, rgen.random, haveWritten, message
      ensures r.Failure? ==> Shots(p0, |shots| + 1) == Failure(r.error)
      ensures r.Success? ==>
                Written(cover, file, delivered, p0, shots + [r.value.0], used', rgen, haveWritten, r.value.1)
      ensures r.Success? ==>
                message.Valid() && message.file == file && message.Delivered() == old(message.Delivered()) + 1
    {
      used' := used;
      ghost var d := message.Delivered();
      var sh := Pick(rgen, haveWritten, p0, shots, used);
      if sh.Failure? {
        return Failure(sh.error), used';
      }
      var s := sh.value;
      assert Fits(p0.gen, s);
      var bit := NextEncodedBit(message, file, delivered);
      WriteNext(cover, EncodedBits(file, delivered), p0, shots, img, s, bit);
      var img' := SetPixelBit(img, s.x, s.y, s.layer, s.bitPos, bit);
      used' := Claim(rgen, haveWritten, p0, shots, used, s);
      WrittenNext(cover, file, delivered, p0, shots + [s], used', rgen, haveWritten, img');
      r := Success((s, img'));
    }

    /** decode: the message bytes, as written to the output file. */
    method Decode(simage: StegoImage, seed: int) returns (r: Result<seq<Byte>>)
      requires ValidRange(startBits, endBits) && simage.Valid()
      ensures r == DecodeSpec(simage, seed, startBits, endBits)
    {
      var imgX := simage.image.width;
      var imgY := simage.image.height;
      var haveWritten := new bool[imgX, imgY, 3, 8];
      Clear(haveWritten);
      var rgen := new PRandom(seed, imgX, imgY, GetLayerCount(simage), startBits, endBits);
      r := DecodeWith(simage, seed, rgen, haveWritten);
    }

    /** decode from the moment its generator and its occupancy array exist: the header, then the body. */
    method DecodeWith(simage: StegoImage, seed: int, rgen: PRandom, haveWritten: array4<bool>) returns (r: Result<seq<Byte>>)
      requires ValidRange(startBits, endBits) && simage.Valid()
      requires Placed(StartPicker(seed, simage.image, startBits, endBits), [], rgen, haveWritten, {})
      modifies rgen, rgen.random, haveWritten
      ensures r == DecodeSpec(simage, seed, startBits, endBits)
    {
      var imgX := simage.image.width;
      var imgY := simage.image.height;
      var size;
      ghost var hs, p1, header;
      size, hs, p1, header := ReadHeaderBits(simage, seed, rgen, haveWritten);
      if size.Failure? {
        return Failure(size.error);
      }
      var size2 := ReverseHeader(size.value, header);
      size2 := BodyLength(size2);
      var imageSpace := ImageSpace(imgX, imgY, GetLayerCount(simage), BitsPerPixel(startBits, endBits));
      if Implausible(size2, imageSpace) {
        DecodeNoMessage(simage, seed, startBits, endBits, hs, p1, header);
        return Failure(NoMessage);
      }
      r := ReadBody(simage, seed, rgen, haveWritten, hs, p1, header, size2);
    }

    /**
     * The header loop of decode: 32 shots, the bit at each shifted into the
     * size. A shot that cannot be made ends decode with its error.
     */
    method ReadHeaderBits(simage: StegoImage, ghost seed: int, rgen: PRandom, haveWritten: array4<bool>)
      returns (r: Result<int>, ghost hs: seq<Shot>, ghost p1: Picker, ghost header: seq<bool>)
      requires ValidRange(startBits, endBits) && simage.Valid()
      requires Placed(StartPicker(seed, simage.image, startBits, endBits), [], rgen, haveWritten, {})
      modifies rgen, rgen.random, haveWritten
      ensures r.Failure? ==> DecodeSpec(simage, seed, startBits, endBits) == Failure(r.error)
      ensures r.Success? ==>
                |header| == 32 && r.value == I32(FromMsb(header)) &&
                HeaderRead(simage, seed, startBits, endBits, hs, p1, header) &&
                Placed(p1, [], rgen, haveWritten, p1.used) &&
                p1.gen.width == simage.image.width && p1.gen.height == simage.image.height
    {
      ghost var p0 := StartPicker(seed, simage.image, startBits, endBits);
      ghost var used;
      r, hs, used, header := ReadSizeBits(simage, rgen, haveWritten, p0);
      if r.Failure? {
        DecodeHeaderFails(simage, seed, startBits, endBits, |hs| + 1);
        return r, hs, p0, header;
      }
      p1 := Picker(rgen.Model(), used);
      PlacedRestart(p0, hs, rgen, haveWritten, used);
    }

    /** The header loop itself: 32 shots, the bit at each shifted into the size. */
    static method ReadSizeBits(simage: StegoImage, rgen: PRandom, haveWritten: array4<bool>, ghost p0: Picker)
      returns (r: Result<int>, ghost hs: seq<Shot>, ghost used: set<Slot>, ghost header: seq<bool>)
      requires simage.Valid() && Placed(p0, [], rgen, haveWritten, {})
      requires p0.gen.width == simage.image.width && p0.gen.height == simage.image.height
      modifies rgen, rgen.random, haveWritten
      ensures r.Failure? ==> |hs| < 32 && Shots(p0, |hs| + 1) == Failure(r.error)
      ensures r.Success? ==>
                |header| == 32 && r.value == I32(FromMsb(header)) &&
                Placed(p0, hs, rgen, haveWritten, used) && ReadBits(simage.image, hs) == Success(header)
    {
      var size := 0;
      used := {};
      hs, header := [], [];
      for i := 0 to 32
        invariant |hs| == |header| == i
        invariant Placed(p0, hs, rgen, haveWritten, used)
        invariant ReadBits(simage.image, hs) == Success(header)
        invariant size == I32(FromMsb(header))
      {
        var bit, s;
        bit, s, used := ReadNext(simage, rgen, haveWritten, p0, hs, used, header);
        if bit.Failure? {
          return Failure(bit.error), hs, used, header;
        }
        hs := hs + [s];
        ShiftInMsb(header, bit.value == 1);
        size := ShiftIn(size, bit.value == 1);
        header := header + [bit.value == 1];
      }
      r := Success(size);
    }

    /** The body loop of decode: `length` more shots, their bits into a retrieved message, which is then closed. */
    method ReadBody(simage: StegoImage, ghost seed: int, rgen: PRandom, haveWritten: array4<bool>,
                    ghost hs: seq<Shot>, ghost p1: Picker, ghost header: seq<bool>, length: int)
      returns (r: Result<seq<Byte>>)
      requires ValidRange(startBits, endBits) && simage.Valid()
      requires HeaderRead(simage, seed, startBits, endBits, hs, p1, header)
      requires Placed(p1, [], rgen, haveWritten, p1.used)
      requires p1.gen.width == simage.image.width && p1.gen.height == simage.image.height
      requires length == BodyLength(HeaderValue(header))
      requires !Implausible(length, ImageSpace(simage.image.width, simage.image.height, GetLayerCount(simage),
                                               BitsPerPixel(startBits, endBits)))
      modifies rgen, rgen.random, haveWritten
      ensures r == DecodeSpec(simage, seed, startBits, endBits)
    {
      var rmess := new RetrievedMessage();
      var res, bs, p2 := ReadBodyBits(simage, rgen, haveWritten, p1, length, rmess);
      if res.Failure? {
        DecodeBodyFails(simage, seed, startBits, endBits, hs, p1, header, |bs| + 1);
        return Failure(res.error);
      }
      rmess.Close();
      DecodeSpecIs(simage, seed, startBits, endBits, hs, p1, header, bs, p2, rmess.received);
      return Success(rmess.output);
    }

    /** The loop of the body: `length` shots, the bit at each passed to the retrieved message. */
    method ReadBodyBits(simage: StegoImage, rgen: PRandom, haveWritten: array4<bool>, ghost p1: Picker,
                        length: int, rmess: RetrievedMessage)
      returns (r: Result<()>, ghost bs: seq<Shot>, ghost p2: Picker)
      requires simage.Valid() && Placed(p1, [], rgen, haveWritten, p1.used)
      requires p1.gen.width == simage.image.width && p1.gen.height == simage.image.height
      requires rmess.Valid() && !rmess.finished && rmess.received == [] && length >= 0
      modifies rgen, rgen.random, haveWritten, rmess
      ensures r.Failure? ==> |bs| < length && Shots(p1, |bs| + 1) == Failure(r.error)
      ensures r.Success? ==> Shots(p1, length) == Success((bs, p2))
      ensures r.Success? ==> rmess.Valid() && !rmess.finished && ReadBits(simage.image, bs) == Success(rmess.received)
    {
      bs := [];
      ghost var used := p1.used;
      p2 := p1;
      for k := 0 to length
        invariant |bs| == k
        invariant Placed(p1, bs, rgen, haveWritten, used)
        invariant rmess.Valid() && !rmess.finished
        invariant ReadBits(simage.image, bs) == Success(rmess.received)
      {
        var bit, s;
        bit, s, used := ReadNext(simage, rgen, haveWritten, p1, bs, used, rmess.received);
        if bit.Failure? {
          return Failure(bit.error), bs, p2;
        }
        var _ := rmess.SetNext(bit.value == 1);
        bs := bs + [s];
      }
      return Success(()), bs, Picker(rgen.Model(), used);
    }

    /** The body of both loops of decode: a free shot, marked, and the bit at it. */
    static method ReadNext(simage: StegoImage, rgen: PRandom, haveWritten: array4<bool>, ghost p0: Picker,
                    ghost shots: seq<Shot>, ghost used: set<Slot>, ghost prev: seq<bool>)
      returns (r: Result<int>, s: Shot, ghost used': set<Slot>)
      requires simage.Valid() && Placed(p0, shots, rgen, haveWritten, used)
      requires p0.gen.width == simage.image.width && p0.gen.height == simage.image.height
      requires ReadBits(simage.image, shots) == Success(prev)
      modifies rgen, rgen.random, haveWritten
      ensures r.Failure? ==> Shots(p0, |shots| + 1) == Failure(r.error)
      ensures r.Success? ==>
                (r.value == 0 || r.value == 1) && Placed(p0, shots + [s], rgen, haveWritten, used') &&
                ReadBits(simage.image, shots + [s]) == Success(prev + [r.value == 1])
    {
      var sh;
      sh, used' := Take(rgen, haveWritten, p0, shots, used);
      s := Shot(0, 0, 0, 0);
      if sh.Failure? {
        return Failure(sh.error), s, used';
      }
      s := sh.value;
      r := GetPixelBit(simage, s.x, s.y, s.layer, s.bitPos);
      ReadStep(simage.image, shots, prev, s, r.value);
    }

    /** outputSimulation: the map of the pixels encode would write to. */
    method OutputSimulation(message: InsertableMessage, cover: Image, seed: int) returns (r: Result<Image>)
      requires ValidRange(startBits, endBits) && cover.Valid() && message.Valid()
      modifies message
      ensures r == SimulationSpec(cover, |message.file|, old(message.Delivered()), seed, startBits, endBits)
      ensures !WillFit(message, cover) ==> unchanged(message)
      ensures r.Success? ==> message.Valid() && message.Delivered() == 8 * |message.file|
    {
      ghost var delivered := message.Delivered();
      ghost var size := |message.file|;
      if !WillFit(message, cover) {
        SimulationRefused(cover, size, delivered, seed, startBits, endBits);
        return Failure(IllegalArgument);
      }
      var height := cover.height;
      var width := cover.width;
      var haveWritten := new bool[width, height, 3, 8];
      Clear(haveWritten);
      var rgen := new PRandom(seed, width, height, Layers(cover), startBits, endBits);
      ghost var p0 := StartPicker(seed, cover, startBits, endBits);
      var image := BlackOut(cover);
      var out, shots, q := MarkRun(message, cover, p0, rgen, haveWritten, image, size, delivered);
      if out.Failure? {
        RunFailsAt(p0, |shots| + 1, 32 + (8 * size - delivered), out.error);
        SimulationOfFailedRun(cover, size, delivered, seed, startBits, endBits, out.error);
        return Failure(out.error);
      }
      SimulationSpecIs(cover, size, delivered, seed, startBits, endBits, shots, q, out.value);
      return Success(out.value);
    }

    /** Both loops of outputSimulation, from a fresh generator, an empty occupancy array and the blacked-out image. */
    method MarkRun(message: InsertableMessage, ghost cover: Image, ghost p0: Picker, rgen: PRandom,
                   haveWritten: array4<bool>, image: Image, ghost size: nat, ghost delivered: nat)
      returns (r: Result<Image>, ghost shots: seq<Shot>, ghost q: Picker)
      requires cover.Valid() && message.Valid() && |message.file| == size && message.Delivered() == delivered
      requires image == Blacken(cover)
      requires p0.gen.Valid() && Usable(p0.gen) && p0.used == {}
      requires p0.gen.width == cover.width && p0.gen.height == cover.height && rgen.Model() == p0.gen
      requires haveWritten.Length0 == cover.width && haveWritten.Length1 == cover.height
      requires haveWritten.Length2 == 3 && haveWritten.Length3 == 8 && Mirrors(haveWritten, {})
      modifies rgen, rgen.random, haveWritten, message
      ensures r.Failure? ==> |shots| < 32 + (8 * size - delivered) && Shots(p0, |shots| + 1) == Failure(r.error)
      ensures r.Success? ==> Shots(p0, 32 + (8 * size - delivered)) == Success((shots, q))
      ensures r.Success? ==> Mark(Blacken(cover), shots) == Success(r.value)
      ensures r.Success? ==> message.Valid() && !message.NotFinished()
    {
      StartMarked(cover, size, delivered, p0, rgen, haveWritten, image);
      var marked, hs, used := MarkHeader(cover, size, delivered, p0, rgen, haveWritten, image);
      if marked.Failure? {
        return Failure(marked.error), hs, p0;
      }
      var out, shots', used' := MarkBody(cover, size, delivered, p0, hs, used, rgen, haveWritten, marked.value, message);
      if out.Failure? {
        return Failure(out.error), shots', p0;
      }
      MarkedAll(cover, size, delivered, p0, shots', used', rgen, haveWritten, out.value);
      return out, shots', Picker(rgen.Model(), used');
    }

    /** Before the first loop of outputSimulation: nothing drawn, nothing lightened. */
    lemma {:induction false} StartMarked(cover: Image, size: nat, delivered: nat, p0: Picker, rgen: PRandom, a: array4<bool>, image: Image)
      requires cover.Valid() && delivered <= 8 * size && image == Blacken(cover)
      requires p0.gen.Valid() && Usable(p0.gen) && p0.used == {}
      requires p0.gen.width == cover.width && p0.gen.height == cover.height && rgen.Model() == p0.gen
      requires a.Length0 == p0.gen.width && a.Length1 == p0.gen.height && a.Length2 == 3 && a.Length3 == 8
      requires Mirrors(a, {})
      ensures Marked(cover, size, delivered, p0, [], {}, rgen, a, image)
    {
    }

    /** After the last shot, the simulation has made the whole run and lightened every pixel of it. */
    lemma {:induction false} MarkedAll(cover: Image, size: nat, delivered: nat, p0: Picker,
                    shots: seq<Shot>, used: set<Slot>, rgen: PRandom, a: array4<bool>, image: Image)
      requires Marked(cover, size, delivered, p0, shots, used, rgen, a, image)
      requires |shots| == 32 + (8 * size - delivered)
      ensures Shots(p0, 32 + (8 * size - delivered)) == Success((shots, Picker(rgen.Model(), used)))
      ensures Mark(Blacken(cover), shots) == Success(image)
    {
    }

    /** The first loop of outputSimulation: the 32 shots of the size header. */
    method MarkHeader(ghost cover: Image, ghost size: nat, ghost delivered: nat, ghost p0: Picker,
                      rgen: PRandom, haveWritten: array4<bool>, image0: Image)
      returns (r: Result<Image>, ghost shots: seq<Shot>, ghost used: set<Slot>)
      requires Marked(cover, size, delivered, p0, [], {}, rgen, haveWritten, image0)
      modifies rgen, rgen.random, haveWritten
      ensures r.Failure? ==> |shots| < 32 && Shots(p0, |shots| + 1) == Failure(r.error)
      ensures r.Success? ==> |shots| == 32 && Marked(cover, size, delivered, p0, shots, used, rgen, haveWritten, r.value)
    {
      shots, used := [], {};
      var image := image0;
      for i := 0 to 32
        invariant |shots| == i
        invariant Marked(cover, size, delivered, p0, shots, used, rgen, haveWritten, image)
      {
        var next;
        ghost var used';
        next, used' := MarkNext(cover, size, delivered, p0, shots, used, rgen, haveWritten, image);
        if next.Failure? {
          return Failure(next.error), shots, used;
        }
        shots, used := shots + [next.value.0], used';
        image := next.value.1;
      }
      r := Success(image);
    }

    /** The second loop of outputSimulation: one shot per message bit until the message is finished. */
    method MarkBody(ghost cover: Image, ghost size: nat, ghost delivered: nat, ghost p0: Picker,
                    ghost shots0: seq<Shot>, ghost used0: set<Slot>, rgen: PRandom, haveWritten: array4<bool>,
                    image0: Image, message: InsertableMessage)
      returns (r: Result<Image>, ghost shots: seq<Shot>, ghost used: set<Slot>)
      requires Marked(cover, size, delivered, p0, shots0, used0, rgen, haveWritten, image0)
      requires message.Valid() && |message.file| == size && delivered <= message.Delivered()
      requires |shots0| == 32 + (message.Delivered() - delivered)
      modifies rgen, rgen.random, haveWritten, message
      ensures r.Failure? ==> |shots| < 32 + (8 * size - delivered) && Shots(p0, |shots| + 1) == Failure(r.error)
      ensures r.Success? ==>
                |shots| == 32 + (8 * size - delivered) &&
                Marked(cover, size, delivered, p0, shots, used, rgen, haveWritten, r.value)
      ensures r.Success? ==> message.Valid() && !message.NotFinished()
    {
      shots, used := shots0, used0;
      var image := image0;
      while message.NotFinished()
        invariant message.Valid() && |message.file| == size
        invariant delivered <= message.Delivered() <= 8 * size
        invariant |shots| == 32 + (message.Delivered() - delivered)
        invariant Marked(cover, size, delivered, p0, shots, used, rgen, haveWritten, image)
        decreases 8 * size - message.Delivered()
      {
        var next;
        ghost var used';
        next, used' := MarkNext(cover, size, delivered, p0, shots, used, rgen, haveWritten, image);
        if next.Failure? {
          return Failure(next.error), shots, used;
        }
        shots, used := shots + [next.value.0], used';
        image := next.value.1;
        var _ := message.NextBit();
      }
      r := Success(image);
    }

    /** After `shots`, outputSimulation has lightened their pixels, in order, in the blacked-out cover. */
    ghost predicate Marked(cover: Image, size: nat, delivered: nat, p0: Picker, shots: seq<Shot>,
                           used: set<Slot>, rgen: PRandom, a: array4<bool>, image: Image)
      reads rgen, rgen.random, a
    {
      cover.Valid() && delivered <= 8 * size && |shots| <= 32 + (8 * size - delivered) &&
      Placed(p0, shots, rgen, a, used) && p0.gen.width == cover.width && p0.gen.height == cover.height &&
      Mark(Blacken(cover), shots) == Success(image)
    }

    /** One pass of either loop of outputSimulation: a free shot, marked, and its pixel lightened. */
    method MarkNext(ghost cover: Image, ghost size: nat, ghost delivered: nat, ghost p0: Picker,
                    ghost shots: seq<Shot>, ghost used: set<Slot>, rgen: PRandom, haveWritten: array4<bool>,
                    image: Image) returns (r: Result<(Shot, Image)>, ghost used': set<Slot>)
      requires Marked(cover, size, delivered, p0, shots, used, rgen, haveWritten, image)
      requires |shots| < 32 + (8 * size - delivered)
      modifies rgen, rgen.random, haveWritten
      ensures r.Failure? ==> Shots(p0, |shots| + 1) == Failure(r.error)
      ensures r.Success? ==>
                Marked(cover, size, delivered, p0, shots + [r.value.0], used', rgen, haveWritten, r.value.1)
    {
      var sh;
      sh, used' := Take(rgen, haveWritten, p0, shots, used);
      if sh.Failure? {
        return Failure(sh.error), used';
      }
      var s := sh.value;
      MarkStep(Blacken(cover), shots, image, s);
      r := Success((s, SetRGB(image, s.x, s.y, DecreaseDarkness(image.RGB(s.x, s.y)))));
    }
  }
}
