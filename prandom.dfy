/**
 * PRandom: the shot generator of HideSeek and BattleSteg. It wraps a
 * `java.util.Random` seeded once and turns successive bounded draws into
 * shots: a free shot anywhere in the image, and a ranged shot near the last
 * free shot that does not move the last shot. The Java exceptions of
 * `nextInt` (a non-positive bound) and a null last shot become errors.
 */
module PRandom {
  import opened Basics
  import opened JavaRandom
  import opened Protocol

  /** Everything a PRandom object knows: the generator state, the bounds and the last shot. */
  datatype Generator = Generator(seed: State, width: int, height: int, numLayers: int,
                                 start: int, end: int, last: Option<Shot>)
  {
    /** The Java fields are `int`s, and so are the fields of the last shot. */
    predicate Valid()
    {
      IsInt32(width) && IsInt32(height) && IsInt32(numLayers) && IsInt32(start) && IsInt32(end) &&
      (last.Some? ==> IsInt32(last.value.x) && IsInt32(last.value.y) &&
                      IsInt32(last.value.bitPos) && IsInt32(last.value.layer))
    }

    /** The same bounds, whatever the generator state and the last shot. */
    predicate SameBounds(g: Generator)
    {
      width == g.width && height == g.height && numLayers == g.numLayers &&
      start == g.start && end == g.end
    }
  }

  /** `new PRandom(seed, width, height, numlayers, startrange, endrange)`: no last shot yet. */
  function NewGenerator(seed: int, width: int, height: int, numLayers: int, start: int, end: int): (g: Generator)
    ensures g.last.None? && g.seed == Scramble(seed)
  {
    Generator(Scramble(seed), width, height, numLayers, start, end, None)
  }

  /** `Math.abs(random.nextInt(bound))`, with the generator state it leaves. */
  function AbsDraw(s: State, bound: int): (r: Result<Draw>)
    requires bound < TWO_31
    ensures bound <= 0 <==> r == Failure(IllegalArgument)
    ensures r.Failure? ==> r.error == IllegalArgument || r.error == Hang
    ensures r.Success? ==> 0 <= r.value.value < bound
  {
    match NextIntSpec(s, bound)
    case Failure(e) => Failure(e)
    case Success(d) => Success(Draw(JavaAbs(d.value), d.state))
  }

  /** The bit-position bound of both kinds of shot, `(end - start) + 1` in int arithmetic. */
  function BitRange(start: int, end: int): int
  {
    I32(I32(end - start) + 1)
  }

  /** The bit position of a shot whose bit draw was v: `start + v` in int arithmetic. */
  function BitPosOf(start: int, v: int): int
  {
    I32(start + v)
  }

  /**
   * A draw below the bit-position bound lands in [start, end] when start <= end.
   * (When end is more than 2^31 below start the bound wraps round to a small
   * positive number and the bit position wraps as well.)
   */
  lemma {:induction false} BitPosInRange(start: int, end: int, v: int)
    requires IsInt32(start) && IsInt32(end) && 0 <= v < BitRange(start, end)
    ensures start <= end ==> BitPosOf(start, v) == start + v && start <= BitPosOf(start, v) <= end
  {
  }

  /**
   * getShot: x, y, layer and bit position drawn in that order; the shot is
   * recorded as the last shot. A non-positive bound makes `nextInt` throw.
   */
  function GetShotSpec(g: Generator): (r: Result<(Shot, Generator)>)
    requires g.Valid()
    ensures g.width <= 0 ==> r == Failure(IllegalArgument)
    ensures r == Failure(IllegalArgument) ==>
              g.width <= 0 || g.height <= 0 || g.numLayers <= 0 || BitRange(g.start, g.end) <= 0
    ensures r.Failure? ==> r.error == IllegalArgument || r.error == Hang
    ensures r.Success? ==>
              var (sh, g') := r.value;
              0 <= sh.x < g.width && 0 <= sh.y < g.height && 0 <= sh.layer < g.numLayers &&
              (g.start <= g.end ==> g.start <= sh.bitPos <= g.end) &&
              g'.Valid() && g'.SameBounds(g) && g'.last == Some(sh)
  {
    match AbsDraw(g.seed, g.width)
    case Failure(e) => Failure(e)
    case Success(dx) =>
      match AbsDraw(dx.state, g.height)
      case Failure(e) => Failure(e)
      case Success(dy) =>
        match AbsDraw(dy.state, g.numLayers)
        case Failure(e) => Failure(e)
        case Success(dl) =>
          match AbsDraw(dl.state, BitRange(g.start, g.end))
          case Failure(e) => Failure(e)
          case Success(db) =>
            BitPosInRange(g.start, g.end, db.value);
            var sh := Shot(dx.value, dy.value, BitPosOf(g.start, db.value), dl.value);
            Success((sh, g.(seed := db.state, last := Some(sh))))
  }

  /**
   * How far a ranged shot may reach on one side of the last shot: `range %
   * room`, or 0 when there is no room on that side.
   */
  function Reach(range: int, room: int): int
  {
    if room == 0 then 0 else JavaRem(range, room)
  }

  /** One reach of getRangedShot: no room, or the range modulo the room. */
  method ReachOf(range: int, room: int) returns (r: int)
    ensures r == Reach(range, room)
  {
    if room == 0 {
      r := 0;
    } else {
      r := JavaRem(range, room);
    }
  }

  /** The four reaches of a ranged shot around the last shot, in int arithmetic. */
  function Left(g: Generator, range: int): int
    requires g.last.Some?
  {
    Reach(range, g.last.value.x)
  }

  function Right(g: Generator, range: int): int
    requires g.last.Some?
  {
    Reach(range, I32(g.width - g.last.value.x))
  }

  function Up(g: Generator, range: int): int
    requires g.last.Some?
  {
    Reach(range, g.last.value.y)
  }

  function Down(g: Generator, range: int): int
    requires g.last.Some?
  {
    Reach(range, I32(g.height - g.last.value.y))
  }

  /** `a + b` in int arithmetic. */
  function Add32(a: int, b: int): int
  {
    I32(a + b)
  }

  /**
   * getRangedShot(range): with r = |range|, x is drawn from the Left + Right
   * columns starting Left columns before the last shot, y likewise; then the
   * layer and the bit position as for a free shot. The last shot is not
   * changed; without one the call is a NullPointerException. Around a last
   * shot inside the image (and for a range other than -2^31, whose absolute
   * value is negative) the shot stays in the image and within r of the last
   * shot in each direction.
   */
  function GetRangedShotSpec(g: Generator, range: int): (r: Result<(Shot, Generator)>)
    requires g.Valid() && IsInt32(range)
    ensures g.last.None? <==> r == Failure(Crash)
    ensures r.Failure? ==> r.error == Crash || r.error == IllegalArgument || r.error == Hang
    ensures g.last.Some? && Add32(Left(g, JavaAbs(range)), Right(g, JavaAbs(range))) <= 0 ==>
              r == Failure(IllegalArgument)
    ensures r.Success? ==>
              var (sh, g') := r.value;
              0 <= sh.layer < g.numLayers && (g.start <= g.end ==> g.start <= sh.bitPos <= g.end) &&
              g'.Valid() && g'.SameBounds(g) && g'.last == g.last
    ensures r.Success? && range != -TWO_31 && LastInside(g) ==>
              var sh := r.value.0;
              var last := g.last.value;
              var n := Abs(range);
              Near(sh.x, last.x, Left(g, n), Right(g, n), n, g.width) &&
              Near(sh.y, last.y, Up(g, n), Down(g, n), n, g.height)
  {
    if g.last.None? then Failure(Crash)
    else
      var n := JavaAbs(range);
      var last := g.last.value;
      var left := Left(g, n);
      var up := Up(g, n);
      assert IsInt32(left) && IsInt32(up);
      match NextIntSpec(g.seed, Add32(left, Right(g, n)))
      case Failure(e) => Failure(e)
      case Success(dx) =>
        match NextIntSpec(dx.state, Add32(up, Down(g, n)))
        case Failure(e) => Failure(e)
        case Success(dy) =>
          match AbsDraw(dy.state, g.numLayers)
          case Failure(e) => Failure(e)
          case Success(dl) =>
            match AbsDraw(dl.state, BitRange(g.start, g.end))
            case Failure(e) => Failure(e)
            case Success(db) =>
              BitPosInRange(g.start, g.end, db.value);
              OffsetNearX(g, n, dx.value);
              OffsetNearY(g, n, dy.value);
              Success((Shot(Offset(last.x, left, dx.value), Offset(last.y, up, dy.value),
                            BitPosOf(g.start, db.value), dl.value), g.(seed := db.state)))
  }

  /** The last shot exists and lies inside the image. */
  predicate LastInside(g: Generator)
  {
    g.last.Some? && 0 <= g.last.value.x < g.width && 0 <= g.last.value.y < g.height
  }

  /** v lies in [p - lo, p + hi), inside [0, size) and within n of p. */
  predicate Near(v: int, p: int, lo: int, hi: int, n: int, size: int)
  {
    p - lo <= v < p + hi && 0 <= v < size && Abs(v - p) <= n
  }

  /** A ranged coordinate: `(last - reach) + v` in int arithmetic. */
  function Offset(last: int, reach: int, v: int): int
  {
    I32(I32(last - reach) + v)
  }

  /** The draw of a ranged x, for a non-negative range n, lands near the last shot. */
  lemma {:induction false} OffsetNearX(g: Generator, n: int, v: int)
    requires g.Valid() && g.last.Some? && IsInt32(n) && 0 <= v < Add32(Left(g, n), Right(g, n))
    ensures 0 <= n && LastInside(g) ==>
              Near(Offset(g.last.value.x, Left(g, n), v), g.last.value.x, Left(g, n), Right(g, n), n, g.width)
  {
    OffsetNear(n, g.last.value.x, g.width, v);
  }

  /** The draw of a ranged y, for a non-negative range n, lands near the last shot. */
  lemma {:induction false} OffsetNearY(g: Generator, n: int, v: int)
    requires g.Valid() && g.last.Some? && IsInt32(n) && 0 <= v < Add32(Up(g, n), Down(g, n))
    ensures 0 <= n && LastInside(g) ==>
              Near(Offset(g.last.value.y, Up(g, n), v), g.last.value.y, Up(g, n), Down(g, n), n, g.height)
  {
    OffsetNear(n, g.last.value.y, g.height, v);
  }

  /** The draw of a ranged coordinate around p, for a non-negative range n, lands near p. */
  lemma {:induction false} OffsetNear(n: int, p: int, size: int, v: int)
    requires IsInt32(n) && IsInt32(size) && 0 <= v < Add32(Reach(n, p), Reach(n, I32(size - p)))
    ensures 0 <= n && 0 <= p < size ==>
              Near(Offset(p, Reach(n, p), v), p, Reach(n, p), Reach(n, I32(size - p)), n, size)
  {
    if 0 <= n && 0 <= p < size {
      assert I32(size - p) == size - p;
    }
  }

  /** setLast(sh). */
  function SetLastSpec(g: Generator, sh: Shot): (g': Generator)
    ensures g'.SameBounds(g) && g'.seed == g.seed && g'.last == Some(sh)
  {
    g.(last := Some(sh))
  }

  /**
   * The nextInt(0) case: range 2 around column 2 of an image 4 wide leaves no
   * reach on either side, so the draw of x throws.
   */
  lemma {:induction false} RangedShotWithoutRoom(g: Generator)
    requires g.Valid() && g.width == 4 && g.last.Some? && g.last.value.x == 2
    ensures GetRangedShotSpec(g, 2) == Failure(IllegalArgument)
  {
    assert Left(g, 2) == 0 && Right(g, 2) == 0;
  }

  /** A PRandom object. */
  class PRandom {
    /** mRandomGen. */
    const random: Random
    /** mWidth, mHeight, mNumLayers, mStart, mEnd. */
    const width: int
    const height: int
    const numLayers: int
    const start: int
    const end: int
    /** mLastShot (`null` is None). */
    var lastShot: Option<Shot>

    /** The object as a generator value. */
    ghost function Model(): Generator
      reads this, random
    {
      Generator(random.seed, width, height, numLayers, start, end, lastShot)
    }

    constructor (seed: int, width: int, height: int, numLayers: int, start: int, end: int)
      ensures Model() == NewGenerator(seed, width, height, numLayers, start, end)
      ensures fresh(random)
    {
      this.width := width;
      this.height := height;
      this.numLayers := numLayers;
      this.start := start;
      this.end := end;
      lastShot := None;
      random := new Random(seed);
    }

    /** `Math.abs(mRandomGen.nextInt(bound))`. */
    method AbsNextInt(bound: int) returns (r: Result<int>)
      requires bound < TWO_31
      modifies random
      ensures r.Success? ==> AbsDraw(old(random.seed), bound) == Success(Draw(r.value, random.seed))
      ensures r.Failure? ==> AbsDraw(old(random.seed), bound) == Failure(r.error)
    {
      var v := random.NextInt(bound);
      if v.Failure? {
        return Failure(v.error);
      }
      return Success(JavaAbs(v.value));
    }

    /** getShot. */
    method GetShot() returns (r: Result<Shot>)
      requires Model().Valid()
      modifies this, random
      ensures r.Success? ==> GetShotSpec(old(Model())) == Success((r.value, Model()))
      ensures r.Failure? ==> GetShotSpec(old(Model())) == Failure(r.error)
    {
      var shotX := AbsNextInt(width);
      if shotX.Failure? {
        return Failure(shotX.error);
      }
      var shotY := AbsNextInt(height);
      if shotY.Failure? {
        return Failure(shotY.error);
      }
      var layer := AbsNextInt(numLayers);
      if layer.Failure? {
        return Failure(layer.error);
      }
      var bit := AbsNextInt(BitRange(start, end));
      if bit.Failure? {
        return Failure(bit.error);
      }
      var sh := Shot(shotX.value, shotY.value, BitPosOf(start, bit.value), layer.value);
      lastShot := Some(sh);
      return Success(sh);
    }

    /** The four reaches of getRangedShot around the last shot. */
    method Reaches(range: int) returns (left: int, right: int, up: int, down: int)
      requires lastShot.Some?
      ensures left == Left(Model(), range) && right == Right(Model(), range)
      ensures up == Up(Model(), range) && down == Down(Model(), range)
    {
      var last := lastShot.value;
      left := ReachOf(range, last.x);
      right := ReachOf(range, I32(width - last.x));
      up := ReachOf(range, last.y);
      down := ReachOf(range, I32(height - last.y));
    }

    /** getRangedShot(range). */
    method GetRangedShot(range: int) returns (r: Result<Shot>)
      requires Model().Valid() && IsInt32(range)
      modifies random
      ensures r.Success? ==> GetRangedShotSpec(old(Model()), range) == Success((r.value, Model()))
      ensures r.Failure? ==> GetRangedShotSpec(old(Model()), range) == Failure(r.error)
    {
      var range' := JavaAbs(range);
      if lastShot.None? {
        return Failure(Crash);
      }
      var rangeLeft, rangeRight, rangeUp, rangeDown := Reaches(range');
      var last := lastShot.value;
      var distRight := Add32(rangeLeft, rangeRight);
      var distDown := Add32(rangeUp, rangeDown);
      var dx := random.NextInt(distRight);
      if dx.Failure? {
        return Failure(dx.error);
      }
      var dy := random.NextInt(distDown);
      if dy.Failure? {
        return Failure(dy.error);
      }
      var layer := AbsNextInt(numLayers);
      if layer.Failure? {
        return Failure(layer.error);
      }
      var bit := AbsNextInt(BitRange(start, end));
      if bit.Failure? {
        return Failure(bit.error);
      }
      var shotX := Offset(last.x, rangeLeft, dx.value);
      var shotY := Offset(last.y, rangeUp, dy.value);
      return Success(Shot(shotX, shotY, BitPosOf(start, bit.value), layer.value));
    }

    /** setLast(sh). */
    method SetLast(sh: Shot)
      modifies this
      ensures Model() == SetLastSpec(old(Model()), sh)
    {
      lastShot := Some(sh);
    }
  }
}
