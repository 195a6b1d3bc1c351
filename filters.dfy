/**
 * The two pixel filters the filter-driven algorithms rank pixels with. Each
 * looks at a pixel's 4- or 8-neighbourhood, but only through a byte mask:
 * of every colour byte it keeps the bits from the filter's start range to
 * its end range. The algorithms set that range above the bits they write, so
 * writing a message leaves every filter value as it was (lemma
 * `WritesKeepFilterValue` below).
 *
 * The Java interface shared by the filters is a `kind` tag here.
 */
module Filters {
  import opened Basics
  import opened Raster
  import opened Protocol

  // ----- the byte mask -----

  /** v when start <= k <= end, else nothing. */
  function BitIf(start: int, end: int, k: int, v: bv32): bv32
  {
    if start <= k <= end then v else 0
  }

  /** The byte whose bit k, for k in 0..7, is set exactly when start <= k <= end. */
  function ByteMask(start: int, end: int): (m: bv32)
    ensures m < 256
  {
    BitIf(start, end, 0, 1) | BitIf(start, end, 1, 2) | BitIf(start, end, 2, 4) | BitIf(start, end, 3, 8) |
    BitIf(start, end, 4, 16) | BitIf(start, end, 5, 32) | BitIf(start, end, 6, 64) | BitIf(start, end, 7, 128)
  }

  /** The mask keeps bit j of a byte exactly when j lies in the range. */
  lemma {:induction false} ByteMaskBit(start: int, end: int, j: bv32)
    requires j < 8
    ensures BitOf(ByteMask(start, end), j) <==> start <= j as int <= end
  {
    var m := ByteMask(start, end);
    if j == 0 {
      assert BitOf(m, 0) == (start <= 0 <= end);
    } else if j == 1 {
      assert BitOf(m, 1) == (start <= 1 <= end);
    } else if j == 2 {
      assert BitOf(m, 2) == (start <= 2 <= end);
    } else if j == 3 {
      assert BitOf(m, 3) == (start <= 3 <= end);
    } else if j == 4 {
      assert BitOf(m, 4) == (start <= 4 <= end);
    } else if j == 5 {
      assert BitOf(m, 5) == (start <= 5 <= end);
    } else if j == 6 {
      assert BitOf(m, 6) == (start <= 6 <= end);
    } else {
      assert BitOf(m, 7) == (start <= 7 <= end);
    }
  }

  /** Java's `(byte)` cast of an int held in a word: keep the low byte, copy its top bit upwards. */
  function ByteCast(v: bv32): (r: bv32)
    ensures r & 0xFF == v & 0xFF
  {
    if v & 0x80 != 0 then v | 0xFFFF_FF00 else v & 0xFF
  }

  /** One round of getByteMask's first loop: `abyte = (byte)(abyte << 1 | bit)`. */
  function PushBit(abyte: bv32, bit: bv32): bv32
  {
    ByteCast((abyte << 1) | bit)
  }

  /** One round of the second loop: `abyte2 = abyte2 << 1 | ((abyte >> i) & 0x1)`. */
  function PullBit(abyte2: bv32, abyte: bv32, i: nat): bv32
    requires i < 32
  {
    (abyte2 << 1) | ((abyte >> i) & 1)
  }

  /** `abyte` after i rounds of the first loop. */
  function ShiftedIn(start: int, end: int, i: nat): bv32
    requires i <= 8
  {
    if i == 0 then 0 else PushBit(ShiftedIn(start, end, i - 1), BitIf(start, end, i - 1, 1))
  }

  /** `abyte2` after i rounds of the second loop over a. */
  function ReversedOut(a: bv32, i: nat): bv32
    requires i <= 8
  {
    if i == 0 then 0 else PullBit(ReversedOut(a, i - 1), a, i - 1)
  }

  /**
   * The first loop leaves bit k of the range at bit 7 - k of the byte (and
   * the cast may fill the upper bytes with ones); the second loop reads the
   * low eight bits back in reverse, so the two together build the mask.
   */
  lemma {:induction false} LoopsMakeByteMask(start: int, end: int)
    ensures ReversedOut(ShiftedIn(start, end, 8), 8) == ByteMask(start, end)
  {
    var b0, b1, b2, b3 := BitIf(start, end, 0, 1), BitIf(start, end, 1, 1), BitIf(start, end, 2, 1), BitIf(start, end, 3, 1);
    var b4, b5, b6, b7 := BitIf(start, end, 4, 1), BitIf(start, end, 5, 1), BitIf(start, end, 6, 1), BitIf(start, end, 7, 1);
    ShiftedInUnrolled(start, end);
    ReversedOutUnrolled(ShiftedIn(start, end, 8));
    Reversal(b0, b1, b2, b3, b4, b5, b6, b7);
    ByteMaskUnrolled(start, end);
  }

  lemma {:induction false} ShiftedInUnrolled(start: int, end: int)
    ensures
      var b0, b1, b2, b3 := BitIf(start, end, 0, 1), BitIf(start, end, 1, 1), BitIf(start, end, 2, 1), BitIf(start, end, 3, 1);
      var b4, b5, b6, b7 := BitIf(start, end, 4, 1), BitIf(start, end, 5, 1), BitIf(start, end, 6, 1), BitIf(start, end, 7, 1);
      ShiftedIn(start, end, 8) ==
        PushBit(PushBit(PushBit(PushBit(PushBit(PushBit(PushBit(PushBit(0, b0), b1), b2), b3), b4), b5), b6), b7)
  {
    assert ShiftedIn(start, end, 1) == PushBit(0, BitIf(start, end, 0, 1));
    assert ShiftedIn(start, end, 2) == PushBit(ShiftedIn(start, end, 1), BitIf(start, end, 1, 1));
    assert ShiftedIn(start, end, 3) == PushBit(ShiftedIn(start, end, 2), BitIf(start, end, 2, 1));
    assert ShiftedIn(start, end, 4) == PushBit(ShiftedIn(start, end, 3), BitIf(start, end, 3, 1));
    assert ShiftedIn(start, end, 5) == PushBit(ShiftedIn(start, end, 4), BitIf(start, end, 4, 1));
    assert ShiftedIn(start, end, 6) == PushBit(ShiftedIn(start, end, 5), BitIf(start, end, 5, 1));
    assert ShiftedIn(start, end, 7) == PushBit(ShiftedIn(start, end, 6), BitIf(start, end, 6, 1));
  }

  lemma {:induction false} ReversedOutUnrolled(a: bv32)
    ensures ReversedOut(a, 8) ==
      PullBit(PullBit(PullBit(PullBit(PullBit(PullBit(PullBit(PullBit(0, a, 0), a, 1), a, 2), a, 3), a, 4), a, 5), a, 6), a, 7)
  {
    assert ReversedOut(a, 1) == PullBit(0, a, 0);
    assert ReversedOut(a, 2) == PullBit(ReversedOut(a, 1), a, 1);
    assert ReversedOut(a, 3) == PullBit(ReversedOut(a, 2), a, 2);
    assert ReversedOut(a, 4) == PullBit(ReversedOut(a, 3), a, 3);
    assert ReversedOut(a, 5) == PullBit(ReversedOut(a, 4), a, 4);
    assert ReversedOut(a, 6) == PullBit(ReversedOut(a, 5), a, 5);
    assert ReversedOut(a, 7) == PullBit(ReversedOut(a, 6), a, 6);
  }

  lemma {:induction false} ByteMaskUnrolled(start: int, end: int)
    ensures
      var b0, b1, b2, b3 := BitIf(start, end, 0, 1), BitIf(start, end, 1, 1), BitIf(start, end, 2, 1), BitIf(start, end, 3, 1);
      var b4, b5, b6, b7 := BitIf(start, end, 4, 1), BitIf(start, end, 5, 1), BitIf(start, end, 6, 1), BitIf(start, end, 7, 1);
      ByteMask(start, end) == b0 | (b1 << 1) | (b2 << 2) | (b3 << 3) | (b4 << 4) | (b5 << 5) | (b6 << 6) | (b7 << 7)
  {
  }

  /** The two loops on eight given bits. */
  lemma {:induction false} Reversal(b0: bv32, b1: bv32, b2: bv32, b3: bv32, b4: bv32, b5: bv32, b6: bv32, b7: bv32)
    requires b0 <= 1 && b1 <= 1 && b2 <= 1 && b3 <= 1 && b4 <= 1 && b5 <= 1 && b6 <= 1 && b7 <= 1
    ensures
      var a := PushBit(PushBit(PushBit(PushBit(PushBit(PushBit(PushBit(PushBit(0, b0), b1), b2), b3), b4), b5), b6), b7);
      PullBit(PullBit(PullBit(PullBit(PullBit(PullBit(PullBit(PullBit(0, a, 0), a, 1), a, 2), a, 3), a, 4), a, 5), a, 6), a, 7)
        == b0 | (b1 << 1) | (b2 << 2) | (b3 << 3) | (b4 << 4) | (b5 << 5) | (b6 << 6) | (b7 << 7)
  {
  }

  /** The byte mask repeated in the blue, green and red bytes of a pixel word. */
  function Wide(m: bv32): bv32
  {
    m | (m << 8) | (m << 16)
  }

  /** The mask applied to each colour byte of a pixel: bit k of Wide(m), below 24, is bit k % 8 of m. */
  lemma {:induction false} WideBit(m: bv32, k: bv32)
    requires m < 256 && k < 24
    ensures BitOf(Wide(m), k) == BitOf(m, k % 8)
  {
  }

  lemma {:induction false} LayerBitInByte(k: bv32, layer: int, bitpos: int)
    requires 0 <= layer < 3 && 0 <= bitpos < 8 && k as int == 8 * layer + bitpos
    ensures (k % 8) as int == bitpos
  {
  }

  /**
   * A bit the algorithms write, in colour layer 0..2 at a position no higher
   * than `end`, lies outside the filter mask for the range end+1..8.
   */
  lemma {:induction false} ShotOutsideFilterMask(end: int, layer: int, bitpos: int)
    requires 0 <= layer < 3 && 0 <= bitpos <= end && bitpos < 8
    ensures !BitOf(Wide(ByteMask(end + 1, 8)), LayerPos(layer, bitpos))
  {
    var k := LayerPos(layer, bitpos);
    WideBit(ByteMask(end + 1, 8), k);
    LayerBitInByte(k, layer, bitpos);
    ByteMaskBit(end + 1, 8, k % 8);
  }

  // ----- colour channels -----

  /** The unsigned value of the low byte of a word. */
  function ByteValue(c: bv32): (v: nat)
    ensures v < 256
  {
    ((c & 0xFF) as bv8) as int
  }

  /**
   * getRed / getGreen / getBlue: the colour byte at `shift` (16, 8 or 0) of a
   * pixel, masked. The mask is a byte, so Java's sign-propagating shift and
   * the value of the masked byte agree with this unsigned reading.
   */
  function Channel(pixel: bv32, shift: bv32, mask: bv32): (c: nat)
    requires shift == 0 || shift == 8 || shift == 16
    ensures c < 256
  {
    ByteValue((pixel >> shift) & mask)
  }

  predicate IsShift(shift: bv32)
  {
    shift == 0 || shift == 8 || shift == 16
  }

  /** A channel sees only the bits of the widened mask: pixels that agree there have equal channels. */
  lemma {:induction false} ChannelSeesOnlyMask(p: bv32, q: bv32, mask: bv32, shift: bv32)
    requires mask < 256 && IsShift(shift) && p & Wide(mask) == q & Wide(mask)
    ensures Channel(p, shift, mask) == Channel(q, shift, mask)
  {
    MaskedBytesAgree(p, q, mask, shift);
    SameByte(p, q, mask, shift);
  }

  lemma {:induction false} MaskedBytesAgree(p: bv32, q: bv32, mask: bv32, shift: bv32)
    requires mask < 256 && IsShift(shift) && p & Wide(mask) == q & Wide(mask)
    ensures (p >> shift) & mask == (q >> shift) & mask
  {
  }

  lemma {:induction false} SameByte(p: bv32, q: bv32, mask: bv32, shift: bv32)
    requires IsShift(shift) && (p >> shift) & mask == (q >> shift) & mask
    ensures Channel(p, shift, mask) == Channel(q, shift, mask)
  {
  }

  lemma {:induction false} ChannelOfZero(mask: bv32, shift: bv32)
    requires IsShift(shift)
    ensures Channel(0, shift, mask) == 0
  {
    assert (0 >> shift) & mask == 0;
  }

  /** What getRed, getGreen and getBlue return for one pixel. */
  datatype Colour = Colour(red: nat, green: nat, blue: nat)

  const Black := Colour(0, 0, 0)

  function ColourOf(pixel: bv32, mask: bv32): (c: Colour)
    ensures c.red < 256 && c.green < 256 && c.blue < 256
  {
    Colour(Channel(pixel, 16, mask), Channel(pixel, 8, mask), Channel(pixel, 0, mask))
  }

  /** A neighbour the filters do not read keeps the value 0, whose colours are all 0. */
  lemma {:induction false} ColourOfZero(mask: bv32)
    ensures ColourOf(0, mask) == Black
  {
    ChannelOfZero(mask, 16);
    ChannelOfZero(mask, 8);
    ChannelOfZero(mask, 0);
  }

  /** The image as a filter sees it: the masked colours of every pixel. */
  datatype Grid = Grid(width: int, height: int, cells: seq<seq<Colour>>)
  {
    predicate Valid() {
      |cells| == height && forall y :: 0 <= y < height ==> |cells[y]| == width
    }

    predicate InBounds(x: int, y: int) {
      0 <= x < width && 0 <= y < height
    }

    function At(x: int, y: int): Colour
      requires Valid() && InBounds(x, y)
    {
      cells[y][x]
    }
  }

  /** The first n cells of row y: the masked colours of pixels (0, y) .. (n - 1, y). */
  function RowOf(img: Image, mask: bv32, y: int, n: nat): (r: seq<Colour>)
    requires img.Valid() && 0 <= y < img.height && n <= img.width
    ensures |r| == n
  {
    if n == 0 then [] else RowOf(img, mask, y, n - 1) + [ColourOf(img.RGB(n - 1, y), mask)]
  }

  /** The first n rows of the grid. */
  function RowsOf(img: Image, mask: bv32, n: nat): (rows: seq<seq<Colour>>)
    requires img.Valid() && n <= img.height
    ensures |rows| == n && forall y :: 0 <= y < n ==> |rows[y]| == img.width
  {
    if n == 0 then [] else RowsOf(img, mask, n - 1) + [RowOf(img, mask, n - 1, img.width)]
  }

  /** The image as the filters read it, row by row. */
  function GridOf(img: Image, mask: bv32): (g: Grid)
    requires img.Valid()
    ensures g.Valid() && g.width == img.width && g.height == img.height
  {
    Grid(img.width, img.height, RowsOf(img, mask, img.height))
  }

  lemma {:induction false} RowAt(img: Image, mask: bv32, y: int, n: nat, x: int)
    requires img.Valid() && 0 <= y < img.height && 0 <= x < n <= img.width
    ensures RowOf(img, mask, y, n)[x] == ColourOf(img.RGB(x, y), mask)
  {
    if x < n - 1 {
      RowAt(img, mask, y, n - 1, x);
    }
  }

  lemma {:induction false} RowsAt(img: Image, mask: bv32, n: nat, y: int)
    requires img.Valid() && 0 <= y < n <= img.height
    ensures RowsOf(img, mask, n)[y] == RowOf(img, mask, y, img.width)
  {
    if y < n - 1 {
      RowsAt(img, mask, n - 1, y);
    }
  }

  /** Each cell holds the masked colours of the pixel at the same place. */
  lemma {:induction false} GridAt(img: Image, mask: bv32, x: int, y: int)
    requires img.Valid() && img.InBounds(x, y)
    ensures GridOf(img, mask).At(x, y) == ColourOf(img.RGB(x, y), mask)
  {
    RowsAt(img, mask, img.height, y);
    RowAt(img, mask, y, img.width, x);
  }

  // ----- the filters -----

  datatype FilterKind = Laplace | Sobel

  datatype Plane = Red | Green | Blue

  function Level(c: Colour, plane: Plane): nat
  {
    match plane
    case Red => c.red
    case Green => c.green
    case Blue => c.blue
  }

  /** A neighbour Java reads only when it exists; a missing one keeps the pixel value 0. */
  function Around(g: Grid, x: int, y: int, present: bool): Colour
    requires g.Valid() && (present ==> g.InBounds(x, y))
  {
    if present then g.At(x, y) else Black
  }

  /** pixcount: four, less one for each side of the image the pixel touches. */
  function PixCount(g: Grid, x: int, y: int): (n: nat)
    ensures n <= 4
  {
    4 - (if x > 0 then 0 else 1) - (if x < g.width - 1 then 0 else 1)
      - (if y > 0 then 0 else 1) - (if y < g.height - 1 then 0 else 1)
  }

  /** The sum of one colour over the four neighbours; a missing neighbour counts 0. */
  function NeighbourSum(g: Grid, x: int, y: int, plane: Plane): nat
    requires g.Valid() && g.InBounds(x, y)
  {
    Level(Around(g, x - 1, y, x > 0), plane) + Level(Around(g, x + 1, y, x < g.width - 1), plane) +
    Level(Around(g, x, y - 1, y > 0), plane) + Level(Around(g, x, y + 1, y < g.height - 1), plane)
  }

  /** One colour's Laplace term: |pixcount * centre - (sum of the neighbours)|. */
  function LaplaceTerm(g: Grid, x: int, y: int, plane: Plane): nat
    requires g.Valid() && g.InBounds(x, y)
  {
    Abs(Level(g.At(x, y), plane) * PixCount(g, x, y) - NeighbourSum(g, x, y, plane))
  }

  function LaplaceOn(g: Grid, x: int, y: int): nat
    requires g.Valid() && g.InBounds(x, y)
  {
    LaplaceTerm(g, x, y, Red) + LaplaceTerm(g, x, y, Green) + LaplaceTerm(g, x, y, Blue)
  }

  /**
   * Laplace.getValue: the pixel against its up-to-four neighbours, each
   * colour separately, absolute differences summed. A neighbour off the edge
   * is skipped and lowers the count. The pixel itself is read first, so a
   * position outside the image is an exception.
   */
  function LaplaceValue(image: Option<Image>, mask: bv32, x: int, y: int): (r: Result<int>)
    requires image.Some? ==> image.value.Valid()
    ensures r.Failure? <==> image.None? || !image.value.InBounds(x, y)
    ensures image.None? ==> r == Failure(NullImage)
    ensures image.Some? && r.Failure? ==> r.error == Crash
    ensures r.Success? ==> r.value >= 0
  {
    match image
    case None => Failure(NullImage)
    case Some(img) =>
      if !img.InBounds(x, y) then Failure(Crash)
      else Success(LaplaceOn(GridOf(img, mask), x, y))
  }

  /** Java's `(int)Math.sqrt(n)` on a non-negative int: the integer square root. */
  function ISqrt(n: nat): (r: nat)
    ensures r * r <= n < (r + 1) * (r + 1)
  {
    SqrtFrom(n, 0)
  }

  function SqrtFrom(n: nat, r: nat): (s: nat)
    requires r * r <= n
    ensures s * s <= n < (s + 1) * (s + 1)
    decreases n - r * r
  {
    if (r + 1) * (r + 1) <= n then SqrtFrom(n, r + 1) else r
  }

  function Square(n: int): (s: nat)
  {
    SquareNonNegative(n);
    n * n
  }

  lemma {:induction false} SquareNonNegative(n: int)
    ensures n * n >= 0
  {
    if n < 0 {
      assert n * n == (-n) * (-n);
    }
  }

  /** The eight neighbours of a pixel. */
  datatype Block = Block(upLeft: Colour, up: Colour, upRight: Colour, left: Colour, right: Colour,
                         downLeft: Colour, down: Colour, downRight: Colour)

  function BlockAt(g: Grid, x: int, y: int): Block
    requires g.Valid() && 1 <= x < g.width - 1 && 1 <= y < g.height - 1
  {
    Block(g.At(x - 1, y - 1), g.At(x, y - 1), g.At(x + 1, y - 1), g.At(x - 1, y),
          g.At(x + 1, y), g.At(x - 1, y + 1), g.At(x, y + 1), g.At(x + 1, y + 1))
  }

  /** The gradient magnitude of one colour: the Sobel kernels across (gx) and down (gy) the block. */
  function SobelTerm(b: Block, plane: Plane): nat
  {
    var gx := (2 * Level(b.right, plane) + Level(b.upRight, plane) + Level(b.downRight, plane)) -
              (2 * Level(b.left, plane) + Level(b.upLeft, plane) + Level(b.downLeft, plane));
    var gy := (2 * Level(b.up, plane) + Level(b.upLeft, plane) + Level(b.upRight, plane)) -
              (2 * Level(b.down, plane) + Level(b.downLeft, plane) + Level(b.downRight, plane));
    ISqrt(Square(gx) + Square(gy))
  }

  function SobelOn(g: Grid, x: int, y: int): nat
    requires g.Valid() && 1 <= x < g.width - 1 && 1 <= y < g.height - 1
  {
    var b := BlockAt(g, x, y);
    SobelTerm(b, Red) + SobelTerm(b, Green) + SobelTerm(b, Blue)
  }

  predicate OnBorder(img: Image, x: int, y: int)
  {
    x == 0 || y == 0 || y == img.height - 1 || x == img.width - 1
  }

  /**
   * Sobel.getValue: 0 on the first and last row and column; elsewhere the
   * sum over the colours of the gradient magnitude. The centre pixel is not
   * read, but any position off the border and outside the image reads a
   * neighbour outside it, which is an exception.
   */
  function SobelValue(image: Option<Image>, mask: bv32, x: int, y: int): (r: Result<int>)
    requires image.Some? ==> image.value.Valid()
    ensures image.None? ==> r == Failure(NullImage)
    ensures image.Some? ==> (r.Failure? <==> !OnBorder(image.value, x, y) && !image.value.InBounds(x, y))
    ensures image.Some? && r.Failure? ==> r.error == Crash
    ensures image.Some? && OnBorder(image.value, x, y) ==> r == Success(0)
    ensures r.Success? ==> r.value >= 0
  {
    match image
    case None => Failure(NullImage)
    case Some(img) =>
      if OnBorder(img, x, y) then Success(0)
      else if !img.InBounds(x, y) then Failure(Crash)
      else Success(SobelOn(GridOf(img, mask), x, y))
  }

  /** getValue of a filter of either kind. */
  function FilterValue(kind: FilterKind, image: Option<Image>, mask: bv32, x: int, y: int): (r: Result<int>)
    requires image.Some? ==> image.value.Valid()
    ensures image.None? ==> r == Failure(NullImage)
    ensures image.Some? && image.value.InBounds(x, y) ==> r.Success?
    ensures r.Success? ==> r.value >= 0
  {
    match kind
    case Laplace => LaplaceValue(image, mask, x, y)
    case Sobel => SobelValue(image, mask, x, y)
  }

  /** getByteMask's first loop: one bit per position 0..7, set when the position is in the range. */
  method ShiftInRange(start: int, end: int) returns (abyte: bv32)
    ensures abyte == ShiftedIn(start, end, 8)
  {
    abyte := 0;
    for i := 0 to 8
      invariant abyte == ShiftedIn(start, end, i)
    {
      var bit: bv32 := if i <= end && i >= start then 1 else 0;
      assert bit == BitIf(start, end, i, 1);
      abyte := PushBit(abyte, bit);
    }
  }

  /** getByteMask's second loop: the low eight bits of abyte in reverse order. */
  method ReverseLowByte(abyte: bv32) returns (abyte2: bv32)
    ensures abyte2 == ReversedOut(abyte, 8)
  {
    abyte2 := 0;
    for i := 0 to 8
      invariant abyte2 == ReversedOut(abyte, i)
    {
      abyte2 := (abyte2 << 1) | ((abyte >> i) & 1);
    }
  }

  // ----- the filter objects -----

  /**
   * A Laplace or Sobel filter: the image it reads (null until one is set)
   * and the range of bits its mask keeps. The getters getStartRange and
   * getEndRange are the fields themselves.
   */
  class Filter {
    const kind: FilterKind
    var image: Option<Image>
    var startRange: int
    var endRange: int

    predicate Valid()
      reads this
    {
      image.Some? ==> image.value.Valid()
    }

    /** `new Laplace()` / `new Sobel()`: no image and the range 1..8. */
    constructor Default(kind: FilterKind)
      ensures Valid() && this.kind == kind && image.None? && startRange == 1 && endRange == 8
    {
      this.kind := kind;
      image := None;
      startRange := 1;
      endRange := 8;
    }

    /** The constructor with a range and no image. */
    constructor WithRange(kind: FilterKind, startbits: int, endbits: int)
      ensures Valid() && this.kind == kind && image.None? && startRange == startbits && endRange == endbits
    {
      this.kind := kind;
      image := None;
      startRange := startbits;
      endRange := endbits;
    }

    /** The constructor with an image (possibly null) and a range. */
    constructor (kind: FilterKind, image: Option<Image>, startbits: int, endbits: int)
      requires image.Some? ==> image.value.Valid()
      ensures Valid() && this.kind == kind && this.image == image
      ensures startRange == startbits && endRange == endbits
    {
      this.kind := kind;
      this.image := image;
      startRange := startbits;
      endRange := endbits;
    }

    method SetImage(img: Option<Image>)
      requires img.Some? ==> img.value.Valid()
      modifies this
      ensures Valid() && image == img && startRange == old(startRange) && endRange == old(endRange)
    {
      image := img;
    }

    method SetStartRange(startrange: int)
      modifies this
      ensures startRange == startrange && image == old(image) && endRange == old(endRange)
    {
      startRange := startrange;
    }

    method SetEndRange(endrange: int)
      modifies this
      ensures endRange == endrange && image == old(image) && startRange == old(startRange)
    {
      endRange := endrange;
    }

    /**
     * getByteMask: the first loop shifts in one bit per position 0..7 (set
     * when the position lies in the range), the second reads the low eight
     * bits back out in reverse order.
     */
    method GetByteMask() returns (m: bv32)
      ensures m == ByteMask(startRange, endRange)
    {
      var abyte := ShiftInRange(startRange, endRange);
      var abyte2 := ReverseLowByte(abyte);
      LoopsMakeByteMask(startRange, endRange);
      m := abyte2;
    }

    /** getRed, getGreen and getBlue of one pixel. */
    method GetColour(pixel: bv32) returns (c: Colour)
      ensures c == ColourOf(pixel, ByteMask(startRange, endRange))
    {
      var mask := GetByteMask();
      c := Colour(Channel(pixel, 16, mask), Channel(pixel, 8, mask), Channel(pixel, 0, mask));
    }

    /** getValue: the filter's value at (x, y) under its current mask. */
    method GetValue(x: int, y: int) returns (r: Result<int>)
      requires Valid()
      ensures r == FilterValue(kind, image, ByteMask(startRange, endRange), x, y)
    {
      var mask := GetByteMask();
      r := FilterValue(kind, image, mask, x, y);
    }
  }

  // ----- the mask hides the low bits -----

  /** Two images of one size and type whose pixels agree on the bits of a word. */
  ghost predicate AgreeUnder(img: Image, img': Image, w: bv32)
  {
    img.Valid() && img'.Valid() && img.width == img'.width && img.height == img'.height &&
    img.kind == img'.kind &&
    forall x, y :: img.InBounds(x, y) ==> img.RGB(x, y) & w == img'.RGB(x, y) & w
  }

  /** The image with every pixel cut down to the bits of w. */
  function Masked(img: Image, w: bv32): (r: Image)
    requires img.Valid()
    ensures r.Valid() && r.width == img.width && r.height == img.height && r.kind == img.kind
  {
    img.(pixels := seq(img.height, y requires 0 <= y < img.height =>
                     seq(img.width, x requires 0 <= x < img.width => img.RGB(x, y) & w)))
  }

  lemma {:induction false} MaskedAt(img: Image, w: bv32, x: int, y: int)
    requires img.Valid() && img.InBounds(x, y)
    ensures Masked(img, w).RGB(x, y) == img.RGB(x, y) & w
  {
  }

  /** Images that agree on the bits of w are the same image once cut down to them. */
  lemma {:induction false} AgreeUnderMasked(img: Image, img': Image, w: bv32)
    requires AgreeUnder(img, img', w)
    ensures Masked(img, w) == Masked(img', w)
  {
    var m, m' := Masked(img, w), Masked(img', w);
    forall y | 0 <= y < img.height
      ensures m.pixels[y] == m'.pixels[y]
    {
      forall x | 0 <= x < img.width
        ensures m.pixels[y][x] == m'.pixels[y][x]
      {
        MaskedAt(img, w, x, y);
        MaskedAt(img', w, x, y);
      }
    }
  }

  lemma {:induction false} MaskedTwice(p: bv32, w: bv32)
    ensures (p & w) & w == p & w
  {
  }

  lemma {:induction false} ChannelOfMasked(p: bv32, mask: bv32, shift: bv32)
    requires mask < 256 && IsShift(shift)
    ensures Channel(p & Wide(mask), shift, mask) == Channel(p, shift, mask)
  {
    MaskedTwice(p, Wide(mask));
    ChannelSeesOnlyMask(p & Wide(mask), p, mask, shift);
  }

  /** Cutting a pixel down to the widened mask does not change its colours. */
  lemma {:induction false} ColourOfMasked(p: bv32, mask: bv32)
    requires mask < 256
    ensures ColourOf(p & Wide(mask), mask) == ColourOf(p, mask)
  {
    ChannelOfMasked(p, mask, 16);
    ChannelOfMasked(p, mask, 8);
    ChannelOfMasked(p, mask, 0);
  }

  lemma {:induction false} CellMasked(img: Image, mask: bv32, x: int, y: int)
    requires img.Valid() && mask < 256 && img.InBounds(x, y)
    ensures GridOf(Masked(img, Wide(mask)), mask).At(x, y) == GridOf(img, mask).At(x, y)
  {
    GridAt(Masked(img, Wide(mask)), mask, x, y);
    GridAt(img, mask, x, y);
    MaskedAt(img, Wide(mask), x, y);
    ColourOfMasked(img.RGB(x, y), mask);
  }

  /** A filter sees an image exactly as it sees the image cut down to the widened mask. */
  lemma {:induction false} GridOfMasked(img: Image, mask: bv32)
    requires img.Valid() && mask < 256
    ensures GridOf(Masked(img, Wide(mask)), mask) == GridOf(img, mask)
  {
    var g, g' := GridOf(Masked(img, Wide(mask)), mask), GridOf(img, mask);
    forall y | 0 <= y < img.height
      ensures g.cells[y] == g'.cells[y]
    {
      forall x | 0 <= x < img.width
        ensures g.cells[y][x] == g'.cells[y][x]
      {
        CellMasked(img, mask, x, y);
      }
    }
  }

  /** Images that agree on the masked bits look the same to a filter. */
  lemma {:induction false} GridsAgree(img: Image, img': Image, mask: bv32)
    requires mask < 256 && AgreeUnder(img, img', Wide(mask))
    ensures GridOf(img, mask) == GridOf(img', mask)
  {
    AgreeUnderMasked(img, img', Wide(mask));
    GridOfMasked(img, mask);
    GridOfMasked(img', mask);
  }

  /**
   * The point of the mask: a filter's value depends only on the masked bits,
   * so two images that agree there have the same value at every position.
   */
  lemma {:induction false} FilterSeesOnlyMask(kind: FilterKind, img: Image, img': Image, mask: bv32, x: int, y: int)
    requires mask < 256 && AgreeUnder(img, img', Wide(mask))
    ensures FilterValue(kind, Some(img), mask, x, y) == FilterValue(kind, Some(img'), mask, x, y)
  {
    GridsAgree(img, img', mask);
  }

  /**
   * What the filter-driven algorithms rely on: writing bits in colour layers
   * 0..2 at positions up to `end` leaves every value of a filter whose range
   * is end+1..8 as it was.
   */
  lemma {:induction false} WritesKeepFilterValue(kind: FilterKind, img: Image, shots: seq<Shot>, bits: seq<bool>,
                              end: int, x: int, y: int)
    requires img.Valid() && |shots| == |bits| && AllInBounds(img, shots)
    requires forall i :: 0 <= i < |shots| ==>
               0 <= shots[i].layer < 3 && 0 <= shots[i].bitPos <= end && shots[i].bitPos < 8
    ensures WriteBits(img, shots, bits).Success?
    ensures FilterValue(kind, Some(WriteBits(img, shots, bits).value), ByteMask(end + 1, 8), x, y) ==
            FilterValue(kind, Some(img), ByteMask(end + 1, 8), x, y)
  {
    var mask := ByteMask(end + 1, 8);
    forall i | 0 <= i < |shots|
      ensures !BitOf(Wide(mask), LayerPos(shots[i].layer, shots[i].bitPos))
    {
      ShotOutsideFilterMask(end, shots[i].layer, shots[i].bitPos);
    }
    WriteBitsKeepsMask(img, shots, bits, Wide(mask));
    FilterSeesOnlyMask(kind, WriteBits(img, shots, bits).value, img, mask, x, y);
  }

  // ----- flat images -----

  /** An image all of one colour. */
  ghost predicate Flat(img: Image, p: bv32)
  {
    img.Valid() && forall x, y :: img.InBounds(x, y) ==> img.RGB(x, y) == p
  }

  ghost predicate FlatGrid(g: Grid, c: Colour)
  {
    g.Valid() && forall x, y :: g.InBounds(x, y) ==> g.At(x, y) == c
  }

  lemma {:induction false} FlatImageFlatGrid(img: Image, p: bv32, mask: bv32)
    requires Flat(img, p)
    ensures FlatGrid(GridOf(img, mask), ColourOf(p, mask))
  {
    forall x, y | img.InBounds(x, y)
      ensures GridOf(img, mask).At(x, y) == ColourOf(p, mask)
    {
      GridAt(img, mask, x, y);
    }
  }

  /** Where the image does not change, neither filter sees anything. */
  lemma {:induction false} FlatFiltersToZero(kind: FilterKind, img: Image, p: bv32, mask: bv32, x: int, y: int)
    requires Flat(img, p) && img.InBounds(x, y)
    ensures FilterValue(kind, Some(img), mask, x, y) == Success(0)
  {
    var g := GridOf(img, mask);
    FlatImageFlatGrid(img, p, mask);
    FlatLaplace(g, ColourOf(p, mask), x, y);
    if !OnBorder(img, x, y) {
      FlatSobel(g, ColourOf(p, mask), x, y);
    }
  }

  lemma {:induction false} FlatLaplace(g: Grid, c: Colour, x: int, y: int)
    requires FlatGrid(g, c) && g.InBounds(x, y)
    ensures LaplaceOn(g, x, y) == 0
  {
    FlatTerm(g, c, x, y, Red);
    FlatTerm(g, c, x, y, Green);
    FlatTerm(g, c, x, y, Blue);
  }

  /** The neighbours that exist sum to pixcount times the centre. */
  lemma {:induction false} FlatTerm(g: Grid, c: Colour, x: int, y: int, plane: Plane)
    requires FlatGrid(g, c) && g.InBounds(x, y)
    ensures LaplaceTerm(g, x, y, plane) == 0
  {
    var v := Level(c, plane);
    assert g.At(x, y) == c;
    assert Level(Around(g, x - 1, y, x > 0), plane) == if x > 0 then v else 0;
    assert Level(Around(g, x + 1, y, x < g.width - 1), plane) == if x < g.width - 1 then v else 0;
    assert Level(Around(g, x, y - 1, y > 0), plane) == if y > 0 then v else 0;
    assert Level(Around(g, x, y + 1, y < g.height - 1), plane) == if y < g.height - 1 then v else 0;
    CountTimes(v, x > 0, x < g.width - 1, y > 0, y < g.height - 1);
  }

  /** v times the number of present neighbours is v summed over the present ones. */
  lemma {:induction false} CountTimes(v: int, a: bool, b: bool, c: bool, d: bool)
    ensures v * (4 - (if a then 0 else 1) - (if b then 0 else 1) - (if c then 0 else 1) - (if d then 0 else 1))
            == (if a then v else 0) + (if b then v else 0) + (if c then v else 0) + (if d then v else 0)
  {
  }

  lemma {:induction false} FlatSobel(g: Grid, c: Colour, x: int, y: int)
    requires FlatGrid(g, c) && 1 <= x < g.width - 1 && 1 <= y < g.height - 1
    ensures SobelOn(g, x, y) == 0
  {
    var b := BlockAt(g, x, y);
    assert b == Block(c, c, c, c, c, c, c, c);
    assert Square(0) == 0;
  }

  // ----- bounds -----

  /** A Laplace value fits easily in a Java int: each colour contributes at most 4 * 255. */
  lemma {:induction false} LaplaceBound(img: Image, mask: bv32, x: int, y: int)
    requires img.Valid() && img.InBounds(x, y)
    ensures LaplaceOn(GridOf(img, mask), x, y) <= 3 * 4 * 255
  {
    var g := GridOf(img, mask);
    GridOfBytes(img, mask);
    TermBound(g, x, y, Red);
    TermBound(g, x, y, Green);
    TermBound(g, x, y, Blue);
  }

  ghost predicate Bytes(g: Grid)
  {
    g.Valid() && forall x, y :: g.InBounds(x, y) ==> g.At(x, y).red < 256 && g.At(x, y).green < 256 && g.At(x, y).blue < 256
  }

  lemma {:induction false} GridOfBytes(img: Image, mask: bv32)
    requires img.Valid()
    ensures Bytes(GridOf(img, mask))
  {
    forall x, y | img.InBounds(x, y)
      ensures GridOf(img, mask).At(x, y) == ColourOf(img.RGB(x, y), mask)
    {
      GridAt(img, mask, x, y);
    }
  }

  lemma {:induction false} TermBound(g: Grid, x: int, y: int, plane: Plane)
    requires Bytes(g) && g.InBounds(x, y)
    ensures LaplaceTerm(g, x, y, plane) <= 4 * 255
  {
    var centre := Level(g.At(x, y), plane);
    var count := PixCount(g, x, y);
    AroundByte(g, x, y, true, plane);
    NeighbourBound(g, x, y, plane);
    MulBound(centre, count);
    AbsBound(centre * count, NeighbourSum(g, x, y, plane), 4 * 255);
  }

  lemma {:induction false} NeighbourBound(g: Grid, x: int, y: int, plane: Plane)
    requires Bytes(g) && g.InBounds(x, y)
    ensures NeighbourSum(g, x, y, plane) <= 4 * 255
  {
    AroundByte(g, x - 1, y, x > 0, plane);
    AroundByte(g, x + 1, y, x < g.width - 1, plane);
    AroundByte(g, x, y - 1, y > 0, plane);
    AroundByte(g, x, y + 1, y < g.height - 1, plane);
  }

  lemma {:induction false} AbsBound(a: nat, b: nat, m: nat)
    requires a <= m && b <= m
    ensures Abs(a - b) <= m
  {
  }

  lemma {:induction false} AroundByte(g: Grid, x: int, y: int, present: bool, plane: Plane)
    requires Bytes(g) && (present ==> g.InBounds(x, y))
    ensures Level(Around(g, x, y, present), plane) < 256
  {
  }

  lemma {:induction false} MulBound(a: nat, n: nat)
    requires a < 256 && n <= 4
    ensures a * n <= 255 * 4
  {
  }
}
