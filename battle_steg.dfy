/**
 * BattleSteg: hides a message in the bits of an image that a game of
 * battleships picks. The shot generator (the inner class BPRandom) is built
 * from the image itself: its ships sit where a filter of the bits above the
 * writable range is strong, and a shot that hits a ship is followed by
 * shots near it. The specification of the generator is the module BPRandom;
 * this module holds the Java objects, proved against it, and the algorithm
 * that uses them.
 */
module BattleSteg {
  import opened Basics
  import opened Bits
  import opened Raster
  import opened StegoImage
  import opened Protocol
  import opened JavaRandom
  import opened PRandom
  import opened FilteredPixels
  import opened Filters
  import opened InsertableMessage
  import opened RetrievedMessage
  import opened Simulation
  import FilterFirst
  import HideSeek
  import BP = BPRandom

  type Slot = HideSeek.Slot
  type Cell = BP.Cell

  // ----- generateShips -----

  /** mShips holds true exactly at the ships. */
  ghost predicate Charted(a: array2<bool>, fleet: set<Cell>)
    reads a
  {
    forall i, j :: 0 <= i < a.Length0 && 0 <= j < a.Length1 ==> (a[i, j] <==> (i, j) in fleet)
  }

  /** The loops that set every entry of a fresh `mShips[W][H]` to false. */
  method ClearShips(a: array2<bool>)
    modifies a
    ensures Charted(a, {})
  {
    for i := 0 to a.Length0
      invariant forall i', j :: 0 <= i' < i && 0 <= j < a.Length1 ==> !a[i', j]
    {
      for j := 0 to a.Length1
        invariant forall i', j' :: 0 <= i' < i && 0 <= j' < a.Length1 ==> !a[i', j']
        invariant forall j' :: 0 <= j' < j ==> !a[i, j']
      {
        a[i, j] := false;
      }
    }
  }

  /** `mShips[x][y] = true`. */
  method Hoist(a: array2<bool>, c: Cell, ghost fleet: set<Cell>)
    requires Charted(a, fleet) && 0 <= c.0 < a.Length0 && 0 <= c.1 < a.Length1
    modifies a
    ensures Charted(a, fleet + {c})
  {
    a[c.0, c.1] := true;
  }

  /**
   * The two loops of generateShips that find the range to shuffle: up from
   * `count + 1` while the score equals that of `count`, then down from
   * `count` while it equals that of `countend - 1`.
   */
  method FindTieRange(fparray: array<FilteredPixel>) returns (r: Result<(nat, nat)>)
    ensures r == BP.TieRange(fparray[..])
  {
    ghost var fp := fparray[..];
    var topten := fparray.Length / 10;
    var count := fparray.Length - topten;
    var countend := count + 1;
    if countend >= fparray.Length {
      return Failure(Crash);
    }
    ghost var upTo := BP.RunEnd(fp, fp[count].value, countend);
    while fparray[countend].value == fparray[count].value && countend < fparray.Length
      invariant count < countend < fparray.Length
      invariant BP.RunEnd(fp, fp[count].value, countend) == upTo
      decreases fparray.Length - countend
    {
      countend := countend + 1;
      if countend == fparray.Length {
        break;
      }
    }
    assert countend == upTo;
    ghost var downTo := BP.RunStart(fp, fp[countend - 1].value, count);
    while fparray[countend - 1].value == fparray[count].value && count > 0
      invariant 0 <= count < countend
      invariant BP.RunStart(fp, fp[countend - 1].value, count) == downTo
      decreases count
    {
      count := count - 1;
    }
    count := count + 1;
    return Success((count, countend));
  }

  /**
   * shufflePixels(array, start, end), on `pixels`: a `new Random(0)` draws two
   * positions in [start, end) and swaps them, end - start times.
   */
  method ShufflePixels(pixels: array<FilteredPixel>, start: int, end: int) returns (r: Result<()>)
    requires 0 <= start <= end <= pixels.Length && end - start < TWO_31
    modifies pixels
    ensures r.Success? ==> BP.Shuffle(old(pixels[..]), start, end) == Success(pixels[..])
    ensures r.Failure? ==> BP.Shuffle(old(pixels[..]), start, end) == Failure(r.error)
  {
    var rgenerator := new Random(0);
    ghost var hold: nat :| true;
    BP.ShuffleIsPasses(pixels[..], start, end, hold);
    r := SwapPasses(pixels, start, end, rgenerator, hold);
  }

  /**
   * The loop of shufflePixels: end - start passes of two draws and a swap,
   * against the passes of the specification that `hold` keeps folded.
   */
  method SwapPasses(pixels: array<FilteredPixel>, start: int, end: int, rgenerator: Random, ghost hold: nat)
    returns (r: Result<()>)
    requires 0 <= start <= end <= pixels.Length && end - start < TWO_31
    modifies pixels, rgenerator
    ensures r.Success? ==> BP.Passes(old(pixels[..]), start, end, old(rgenerator.seed), end - start, hold) == Success(pixels[..])
    ensures r.Failure? ==> BP.Passes(old(pixels[..]), start, end, old(rgenerator.seed), end - start, hold) == Failure(r.error)
  {
    var numshuffles := end - start;
    ghost var cur, seed := pixels[..], rgenerator.seed;
    ghost var goal := BP.Passes(cur, start, end, seed, numshuffles, hold);
    for i := 0 to numshuffles
      invariant cur == pixels[..] && seed == rgenerator.seed
      invariant BP.Passes(cur, start, end, seed, numshuffles - i, hold) == goal
    {
      var step := SwapPass(pixels, start, end, rgenerator, hold, numshuffles - i);
      if step.Failure? {
        return step;
      }
      cur, seed := pixels[..], rgenerator.seed;
    }
    BP.PassesDone(cur, start, end, seed, hold);
    return Success(());
  }

  /** One pass of shufflePixels' loop, with k passes still to go: two draws, then the swap. */
  method SwapPass(pixels: array<FilteredPixel>, start: int, end: int, rgenerator: Random, ghost hold: nat, ghost k: nat)
    returns (r: Result<()>)
    requires 0 <= start < end <= pixels.Length && end - start < TWO_31 && k > 0
    modifies pixels, rgenerator
    ensures r.Success? ==> BP.Passes(old(pixels[..]), start, end, old(rgenerator.seed), k, hold) ==
                           BP.Passes(pixels[..], start, end, rgenerator.seed, k - 1, hold)
    ensures r.Failure? ==> BP.Passes(old(pixels[..]), start, end, old(rgenerator.seed), k, hold) == Failure(r.error)
  {
    ghost var cur, seed := pixels[..], rgenerator.seed;
    var ab := Draws(rgenerator, end - start, hold);
    if ab.Failure? {
      BP.ShuffleFromDrawFails(cur, start, end, seed, k, hold);
      return Failure(ab.error);
    }
    BP.ShuffleFromDraws(cur, start, end, seed, k, hold, ab.value.0, ab.value.1, rgenerator.seed);
    Exchange(pixels, start + ab.value.0, start + ab.value.1);
    r := Success(());
  }

  /** `rgenerator.nextInt(end - start)` twice: the two positions of one swap. */
  method Draws(rgenerator: Random, n: int, ghost hold: nat) returns (r: Result<(int, int)>)
    requires 0 < n < TWO_31
    modifies rgenerator
    ensures r.Success? ==> BP.Pass(old(rgenerator.seed), n, hold) == Success((r.value.0, r.value.1, rgenerator.seed))
    ensures r.Failure? ==> BP.Pass(old(rgenerator.seed), n, hold) == Failure(r.error)
  {
    BP.PassAnyHold(rgenerator.seed, n, hold);
    var a := rgenerator.NextInt(n);
    if a.Failure? {
      return Failure(a.error);
    }
    var b := rgenerator.NextInt(n);
    if b.Failure? {
      return Failure(b.error);
    }
    return Success((a.value, b.value));
  }

  /** `temp = array[i]; array[i] = array[j]; array[j] = temp;` */
  method Exchange(pixels: array<FilteredPixel>, i: int, j: int)
    requires 0 <= i < pixels.Length && 0 <= j < pixels.Length
    modifies pixels
    ensures pixels[..] == BP.Swap(old(pixels[..]), i, j)
  {
    var temp := pixels[i];
    pixels[i] := pixels[j];
    pixels[j] := temp;
  }

  /** `engines[i - 1] = fparray[fparray.length - i]` for i from 1 to topten. */
  method TopTenth(fparray: array<FilteredPixel>) returns (engines: array<FilteredPixel>)
    ensures fresh(engines)
    ensures engines[..] == BP.Engines(fparray[..])
  {
    var topten := fparray.Length / 10;
    engines := new FilteredPixel[topten];
    for i := 1 to topten + 1
      invariant forall k :: 0 <= k < i - 1 ==> engines[k] == fparray[fparray.Length - 1 - k]
    {
      engines[i - 1] := fparray[fparray.Length - i];
    }
  }

  /**
   * One neighbour check of the ship loop: the cell becomes a ship when its
   * filter value, made positive, is at least the median.
   */
  method Neighbour(ships: array2<bool>, filter: Filter, image: Image, median: int, c: Cell, ghost fleet: set<Cell>)
    returns (hit: bool)
    requires image.Valid() && filter.Valid() && filter.image == Some(image) && image.InBounds(c.0, c.1)
    requires ships.Length0 == image.width && ships.Length1 == image.height && Charted(ships, fleet)
    modifies ships
    ensures var found := BP.Side(filter.kind, image, ByteMask(filter.startRange, filter.endRange), median, c, true);
            Charted(ships, fleet + found) && (hit <==> found != {})
  {
    ghost var mask := ByteMask(filter.startRange, filter.endRange);
    var v := filter.GetValue(c.0, c.1);
    BP.StrengthIsScore(filter.kind, image, mask, c.0, c.1);
    hit := Abs(v.value) >= median;
    if hit {
      Hoist(ships, c, fleet);
    } else {
      assert fleet + {} == fleet;
    }
  }

  /**
   * A neighbour check guarded by whether the neighbour lies in the image:
   * `found` is what the earlier checks of the same engine found, and `acount`
   * counts them.
   */
  method Look(ships: array2<bool>, filter: Filter, image: Image, median: int, c: Cell, inside: bool,
              ghost fleet: set<Cell>, ghost found: set<Cell>, acount: nat) returns (acount': nat)
    requires image.Valid() && filter.Valid() && filter.image == Some(image) && (inside ==> image.InBounds(c.0, c.1))
    requires ships.Length0 == image.width && ships.Length1 == image.height
    requires Charted(ships, fleet + found) && (acount > 0 <==> found != {})
    modifies ships
    ensures var found' := found + BP.Side(filter.kind, image, ByteMask(filter.startRange, filter.endRange), median, c, inside);
            Charted(ships, fleet + found') && (acount' > 0 <==> found' != {})
  {
    ghost var side := BP.Side(filter.kind, image, ByteMask(filter.startRange, filter.endRange), median, c, inside);
    acount' := acount;
    if inside {
      var hit := Neighbour(ships, filter, image, median, c, fleet + found);
      if hit {
        acount' := acount + 1;
      }
      assert fleet + found + side == fleet + (found + side);
    } else {
      assert found + side == found;
    }
  }

  /**
   * The four neighbour checks of one engine, to its left, right, below and
   * above in that order: they chart the engine's escorts, and `acount` is
   * positive exactly when there is one.
   */
  method LookAround(ships: array2<bool>, filter: Filter, image: Image, median: int, x: int, y: int,
                    ghost fleet: set<Cell>) returns (acount: nat)
    requires image.Valid() && filter.Valid() && filter.image == Some(image) && image.InBounds(x, y)
    requires ships.Length0 == image.width && ships.Length1 == image.height && Charted(ships, fleet)
    modifies ships
    ensures var escorts := BP.Escorts(filter.kind, image, ByteMask(filter.startRange, filter.endRange), median, x, y);
            Charted(ships, fleet + escorts) && (acount > 0 <==> escorts != {})
  {
    ghost var mask := ByteMask(filter.startRange, filter.endRange);
    ghost var left := BP.Side(filter.kind, image, mask, median, (x - 1, y), x > 0);
    ghost var right := BP.Side(filter.kind, image, mask, median, (x + 1, y), x < image.width - 1);
    ghost var below := BP.Side(filter.kind, image, mask, median, (x, y + 1), y < image.height - 1);
    assert fleet + {} == fleet;
    acount := Look(ships, filter, image, median, (x - 1, y), x > 0, fleet, {}, 0);
    assert {} + left == left;
    acount := Look(ships, filter, image, median, (x + 1, y), x < image.width - 1, fleet, left, acount);
    acount := Look(ships, filter, image, median, (x, y + 1), y < image.height - 1, fleet, left + right, acount);
    acount := Look(ships, filter, image, median, (x, y - 1), y > 0, fleet, left + right + below, acount);
    BP.EscortsBySide(filter.kind, image, mask, median, x, y);
  }

  /** One engine of the ship loop: it becomes a ship when one of its neighbours did (`acount > 0`). */
  method MarkEngine(ships: array2<bool>, filter: Filter, image: Image, median: int, x: int, y: int,
                    ghost fleet: set<Cell>)
    requires image.Valid() && filter.Valid() && filter.image == Some(image) && image.InBounds(x, y)
    requires ships.Length0 == image.width && ships.Length1 == image.height && Charted(ships, fleet)
    modifies ships
    ensures Charted(ships, fleet + BP.EngineShips(filter.kind, image, ByteMask(filter.startRange, filter.endRange),
                                                  median, x, y))
  {
    ghost var escorts := BP.Escorts(filter.kind, image, ByteMask(filter.startRange, filter.endRange), median, x, y);
    var acount := LookAround(ships, filter, image, median, x, y, fleet);
    if acount > 0 {
      Hoist(ships, (x, y), fleet + escorts);
      assert fleet + escorts + {(x, y)} == fleet + (escorts + {(x, y)});
    }
  }

  /** The ship loop of generateShips: every engine in turn, best first. */
  method MarkShips(ships: array2<bool>, filter: Filter, image: Image, engines: array<FilteredPixel>, median: int)
    returns (ghost fleet: set<Cell>)
    requires image.Valid() && filter.Valid() && filter.image == Some(image)
    requires FilterFirst.PositionsIn(engines[..], image)
    requires ships.Length0 == image.width && ships.Length1 == image.height && Charted(ships, {})
    modifies ships
    ensures fleet == BP.Union(BP.Fleets(filter.kind, image, ByteMask(filter.startRange, filter.endRange), median, engines[..]),
                              engines.Length)
    ensures Charted(ships, fleet)
  {
    ghost var fleets := BP.Fleets(filter.kind, image, ByteMask(filter.startRange, filter.endRange), median, engines[..]);
    fleet := {};
    for i := 0 to engines.Length
      invariant fleet == BP.Union(fleets, i) && Charted(ships, fleet)
    {
      var x, y := engines[i].x, engines[i].y;
      MarkEngine(ships, filter, image, median, x, y, fleet);
      fleet := fleet + fleets[i];
    }
  }

  /**
   * generateShips up to the shuffle: the filter's scores sorted, with the run
   * of equal scores at the top tenth shuffled; an image too large for one
   * Java array fails.
   */
  method RankPixels(image: Image, filter: Filter, end: int) returns (r: Result<array<FilteredPixel>>)
    requires image.Valid() && filter.Valid() && filter.startRange == end + 1 && filter.endRange == 8
    modifies filter
    ensures filter.Valid() && filter.startRange == end + 1 && filter.endRange == 8
    ensures filter.image == Some(image)
    ensures r.Success? ==> fresh(r.value) && BP.ShuffledRanking(filter.kind, image, end) == Success(r.value[..])
    ensures r.Failure? ==> BP.ShuffledRanking(filter.kind, image, end) == Failure(r.error)
  {
    if !FilterFirst.Addressable(image) {
      filter.SetImage(Some(image));
      return Failure(Crash);
    }
    var fparray := FilterFirst.GenerateList(image, filter);
    assert fparray[..] == FilterFirst.Ranking(filter.kind, image, end);
    var tie := FindTieRange(fparray);
    if tie.Failure? {
      return Failure(tie.error);
    }
    var count, countend := tie.value.0, tie.value.1;
    BP.TieRangeIsRun(fparray[..]);
    var shuffled := ShufflePixels(fparray, count, countend);
    if shuffled.Failure? {
      return Failure(shuffled.error);
    }
    return Success(fparray);
  }

  /** `rgen.getRangedShot(range)`, stated with `Ranged`. */
  method RangedShot(rgen: PRandom, range: int) returns (r: Result<Shot>)
    requires rgen.Model().Valid() && IsInt32(range)
    modifies rgen.random
    ensures r.Success? ==> BP.Ranged(old(rgen.Model()), range, 1) == Success((r.value, rgen.Model()))
    ensures r.Failure? ==> BP.Ranged(old(rgen.Model()), range, 1) == Failure(r.error)
  {
    BP.RangedIsGetRangedShot(rgen.Model(), range);
    r := rgen.GetRangedShot(range);
  }

  /** The inner class BPRandom: a PRandom that aims at ships. */
  class BPRandom {
    /** The PRandom this object extends. */
    const rgen: PRandom
    /** mMoveAwayFixed, mInitShots, mShotsIncrease, mShotRange. */
    const tactics: BP.Tactics
    /** beenShot[W][H][3][8]: the bits already shot. */
    const beenShot: array4<bool>
    /** mShips[W][H]. */
    const ships: array2<bool>
    /** mNumShots, mMoveAway. */
    var numShots: int
    var moveAway: int
    /** The bits beenShot marks and the cells mShips marks. */
    ghost var used: set<Slot>
    ghost var fleet: set<Cell>

    /** The object as the board getShot works on. */
    ghost function Model(): BP.Board
      reads this, rgen, rgen.random
    {
      BP.Board(rgen.Model(), used, numShots, moveAway)
    }

    ghost predicate Valid()
      reads this, rgen, rgen.random, beenShot, ships
    {
      tactics.Valid() && Model().Valid() &&
      beenShot.Length0 == rgen.Model().width && beenShot.Length1 == rgen.Model().height &&
      beenShot.Length2 == 3 && beenShot.Length3 == 8 &&
      ships.Length0 == rgen.Model().width && ships.Length1 == rgen.Model().height &&
      HideSeek.Mirrors(beenShot, used) && Charted(ships, fleet)
    }

    /**
     * The constructor up to generateShips: a PRandom for the image, the
     * filter set to the bits above the writable range, and beenShot and
     * mShips cleared.
     */
    constructor (seed: int, start: int, end: int, image: Image, t: BP.Tactics, filter: Filter)
      requires image.Valid() && HideSeek.ValidRange(start, end) && t.Valid()
      modifies filter
      ensures Valid() && Model() == BP.StartBoard(seed, image, start, end) && fleet == {} && tactics == t
      ensures filter.startRange == end + 1 && filter.endRange == 8 && filter.image == old(filter.image)
      ensures fresh(rgen) && fresh(rgen.random) && fresh(beenShot) && fresh(ships)
    {
      rgen := new PRandom(seed, image.width, image.height, HideSeek.Layers(image), start, end);
      tactics := t;
      filter.SetStartRange(end + 1);
      filter.SetEndRange(8);
      beenShot := new bool[image.width, image.height, 3, 8];
      ships := new bool[image.width, image.height];
      numShots, moveAway := 0, 0;
      used, fleet := {}, {};
      new;
      HideSeek.Clear(beenShot);
      ClearShips(ships);
    }

    /**
     * generateShips: rank the pixels by the filter, shuffle the run of equal
     * scores at the top tenth, and mark as ships the neighbours of the top
     * tenth that score at least the median, with each engine that has one.
     */
    method GenerateShips(image: Image, filter: Filter) returns (r: Result<()>)
      requires Valid() && image.Valid() && filter.Valid() && fleet == {}
      requires image.width == rgen.width && image.height == rgen.height
      requires filter.startRange == rgen.end + 1 && filter.endRange == 8
      modifies this`fleet, ships, filter
      ensures r.Success? ==> BP.ShipsSpec(filter.kind, image, rgen.end) == Success(fleet) && Valid()
      ensures r.Failure? ==> BP.ShipsSpec(filter.kind, image, rgen.end) == Failure(r.error)
      ensures filter.Valid() && filter.image == Some(image) && filter.startRange == rgen.end + 1 && filter.endRange == 8
    {
      var ranked := RankPixels(image, filter, rgen.end);
      if ranked.Failure? {
        return Failure(ranked.error);
      }
      fleet := ChartFleet(ships, filter, image, ranked.value, rgen.end);
      return Success(());
    }

    /** The part of generateShips after the ranking: the engines, the median, and the ships they mark. */
    static method ChartFleet(ships: array2<bool>, filter: Filter, image: Image, fparray: array<FilteredPixel>, end: int)
      returns (ghost fleet: set<Cell>)
      requires image.Valid() && filter.Valid() && filter.image == Some(image)
      requires filter.startRange == end + 1 && filter.endRange == 8
      requires BP.ShuffledRanking(filter.kind, image, end) == Success(fparray[..])
      requires ships.Length0 == image.width && ships.Length1 == image.height && Charted(ships, {})
      modifies ships
      ensures BP.ShipsSpec(filter.kind, image, end) == Success(fleet) && Charted(ships, fleet)
    {
      ghost var fp := fparray[..];
      BP.ShuffledRankingIn(filter.kind, image, end);
      var engines := TopTenth(fparray);
      var median := fparray[fparray.Length / 2].value;
      assert FilterFirst.PositionsIn(engines[..], image) by {
        forall k | 0 <= k < engines.Length
          ensures image.InBounds(engines[k].x, engines[k].y)
        {
          assert engines[k] == fp[|fp| - 1 - k];
        }
      }
      fleet := MarkShips(ships, filter, image, engines, median);
    }

    /**
     * `new BPRandom(seed, numlayers, startrange, endrange, image, moveaway,
     * initshots, shotsincrease, shotrange, filter)`, the layer count being
     * the image's: when generateShips throws, the program exits.
     */
    static method New(seed: int, start: int, end: int, image: Image, t: BP.Tactics, filter: Filter)
      returns (r: Result<BPRandom>)
      requires image.Valid() && HideSeek.ValidRange(start, end) && t.Valid() && filter.Valid()
      modifies filter
      ensures r.Success? ==> fresh(r.value) && fresh(r.value.rgen) && fresh(r.value.rgen.random)
      ensures r.Success? ==> fresh(r.value.beenShot) && fresh(r.value.ships)
      ensures r.Success? ==> r.value.Valid() && r.value.tactics == t &&
                             r.value.Model() == BP.StartBoard(seed, image, start, end) &&
                             BP.ShipsSpec(filter.kind, image, end) == Success(r.value.fleet)
      ensures r.Failure? ==> BP.ShipsSpec(filter.kind, image, end) == Failure(r.error)
      ensures filter.Valid() && filter.image == Some(image) && filter.startRange == end + 1 && filter.endRange == 8
    {
      var bp := new BPRandom(seed, start, end, image, t, filter);
      var made := bp.GenerateShips(image, filter);
      if made.Failure? {
        return Failure(made.error);
      }
      return Success(bp);
    }

    /** getShot: a free shot while a counter has run out, a ranged one while both are positive. */
    method GetShot() returns (r: Result<Shot>)
      requires Valid()
      modifies this, rgen, rgen.random, beenShot
      ensures fleet == old(fleet)
      ensures r.Success? ==> BP.Fire(tactics, fleet, old(Model())) == Success((r.value, Model())) && Valid()
      ensures r.Failure? ==> BP.Fire(tactics, fleet, old(Model())) == Failure(r.error)
    {
      if numShots <= 0 || moveAway <= 0 {
        r := Explore();
      } else {
        r := Exploit();
      }
    }

    /**
     * The branch of getShot for a counter that has run out: mMoveAway is
     * reset and mNumShots cleared, a free shot is drawn, marked, and when it
     * hits a ship mNumShots becomes mInitShots.
     */
    method Explore() returns (r: Result<Shot>)
      requires Valid()
      modifies this, rgen, rgen.random, beenShot
      ensures fleet == old(fleet)
      ensures r.Success? ==> BP.Explore(tactics, fleet, old(Model())) == Success((r.value, Model())) && Valid()
      ensures r.Failure? ==> BP.Explore(tactics, fleet, old(Model())) == Failure(r.error)
    {
      moveAway := tactics.moveAway;
      numShots := 0;
      var sh := HideSeek.DrawFree(rgen, beenShot, used);
      if sh.Failure? {
        return sh;
      }
      var s := sh.value;
      HideSeek.MarkSlot(beenShot, s, used);
      used := used + {HideSeek.SlotOf(s)};
      if ships[s.x, s.y] {
        numShots := tactics.initShots;
      }
      return Success(s);
    }

    /**
     * The branch of getShot while both counters are positive: both go down,
     * a ranged shot is drawn and redrawn while its bit is used, then marked;
     * a hit on a ship adds mShotsIncrease to mNumShots and recentres the
     * ranged shots on it.
     */
    method Exploit() returns (r: Result<Shot>)
      requires Valid() && numShots > 0 && moveAway > 0
      modifies this`numShots, this`moveAway, this`used, rgen, rgen.random, beenShot
      ensures r.Success? ==> BP.Exploit(tactics, fleet, old(Model())) == Success((r.value, Model())) && Valid()
      ensures r.Failure? ==> BP.Exploit(tactics, fleet, old(Model())) == Failure(r.error)
    {
      BP.ExploitSteps(tactics, fleet, Model());
      numShots := BP.Dec(numShots);
      moveAway := BP.Dec(moveAway);
      var sh := RangedShot(rgen, tactics.shotRange);
      if sh.Failure? {
        return sh;
      }
      r := Settle(sh.value);
    }

    /** The ranged shot s is redrawn while its bit is used, then marked. */
    method Settle(s: Shot) returns (r: Result<Shot>)
      requires Valid() && BP.Aimed(rgen.Model(), s)
      modifies this`numShots, this`moveAway, this`used, rgen, rgen.random, beenShot
      ensures
        var h := BP.Hunt(tactics, s, old(rgen.Model()), old(used), old(numShots), old(moveAway), HideSeek.MAX_REDRAWS);
        (r.Success? ==> h.Success? && r.value == h.value.shot && Model() == BP.Landed(tactics, fleet, old(used), h.value) && Valid()) &&
        (r.Failure? ==> h == Failure(r.error))
    {
      var hit := Chase(s);
      if hit.Failure? {
        return hit;
      }
      Land(hit.value);
      return hit;
    }

    /**
     * The end of the ranged branch: the shot the redraw loop settled on is
     * marked, and a hit on a ship adds mShotsIncrease to mNumShots and makes
     * the shot the last one.
     */
    method Land(s: Shot)
      requires Valid() && HideSeek.Fits(rgen.Model(), s)
      modifies this`numShots, this`used, rgen, beenShot
      ensures Model() == BP.Landed(tactics, fleet, old(used), BP.Hit(s, old(rgen.Model()), old(numShots), old(moveAway)))
      ensures Valid()
    {
      HideSeek.MarkSlot(beenShot, s, used);
      used := used + {HideSeek.SlotOf(s)};
      if ships[s.x, s.y] {
        numShots := Add32(numShots, tactics.shotsIncrease);
        rgen.SetLast(s);
      }
    }

    /**
     * The redraw loop of the ranged branch: while the shot's bit is used, a
     * free shot once a counter has run out and a ranged one before, and both
     * counters down once more. A shot outside beenShot is an index out of
     * bounds.
     */
    method Chase(s0: Shot) returns (r: Result<Shot>)
      requires Valid() && BP.Aimed(rgen.Model(), s0)
      modifies this`numShots, this`moveAway, rgen, rgen.random
      ensures r.Success? ==>
                BP.Hunt(tactics, s0, old(rgen.Model()), used, old(numShots), old(moveAway), HideSeek.MAX_REDRAWS) ==
                Success(BP.Hit(r.value, rgen.Model(), numShots, moveAway)) && Valid()
      ensures r.Failure? ==>
                BP.Hunt(tactics, s0, old(rgen.Model()), used, old(numShots), old(moveAway), HideSeek.MAX_REDRAWS) ==
                Failure(r.error)
    {
      ghost var g0 := rgen.Model();
      ghost var goal := BP.Hunt(tactics, s0, g0, used, numShots, moveAway, HideSeek.MAX_REDRAWS);
      var sh := s0;
      var draws: nat := 0;
      while true
        invariant Valid() && rgen.Model().SameBounds(g0) && BP.Aimed(rgen.Model(), sh)
        invariant draws <= HideSeek.MAX_REDRAWS
        invariant BP.Hunt(tactics, sh, rgen.Model(), used, numShots, moveAway, HideSeek.MAX_REDRAWS - draws) == goal
        decreases HideSeek.MAX_REDRAWS - draws
      {
        if !(0 <= sh.x < beenShot.Length0 && 0 <= sh.y < beenShot.Length1 && 0 <= sh.layer < 3 && 0 <= sh.bitPos < 8) {
          return Failure(Crash);
        }
        HideSeek.MirrorsAt(beenShot, used, sh);
        if !beenShot[sh.x, sh.y, sh.layer, sh.bitPos] {
          return Success(sh);
        }
        if draws == HideSeek.MAX_REDRAWS {
          return Failure(Hang);
        }
        var next := Rehunt(sh, HideSeek.MAX_REDRAWS - draws);
        if next.Failure? {
          return next;
        }
        sh := next.value;
        draws := draws + 1;
      }
    }

    /** A pass of the redraw loop on a used bit inside beenShot: the loop goes on from the next shot. */
    method Rehunt(sh: Shot, ghost fuel: nat) returns (r: Result<Shot>)
      requires Valid() && BP.Aimed(rgen.Model(), sh) && BP.InGrid(rgen.Model(), sh)
      requires HideSeek.SlotOf(sh) in used && fuel > 0
      modifies this`numShots, this`moveAway, rgen, rgen.random
      ensures r.Failure? ==>
                BP.Hunt(tactics, sh, old(rgen.Model()), used, old(numShots), old(moveAway), fuel) == Failure(r.error)
      ensures r.Success? ==>
                Valid() && rgen.Model().SameBounds(old(rgen.Model())) && BP.Aimed(rgen.Model(), r.value) &&
                BP.Hunt(tactics, sh, old(rgen.Model()), used, old(numShots), old(moveAway), fuel) ==
                BP.Hunt(tactics, r.value, rgen.Model(), used, numShots, moveAway, fuel - 1)
    {
      BP.HuntRedraws(tactics, sh, rgen.Model(), used, numShots, moveAway, fuel);
      r := Redraw();
    }

    /**
     * One pass of the redraw loop: the shot's bit is used, so a free shot is
     * drawn once a counter has run out and a ranged one before, and both
     * counters go down.
     */
    method Redraw() returns (r: Result<Shot>)
      requires Valid()
      modifies this`numShots, this`moveAway, rgen, rgen.random
      ensures r.Failure? ==> BP.Volley(tactics, old(rgen.Model()), old(numShots), old(moveAway)) == Failure(r.error)
      ensures r.Success? ==>
                BP.Volley(tactics, old(rgen.Model()), old(numShots), old(moveAway)) == Success((r.value, rgen.Model())) &&
                numShots == BP.Dec(old(numShots)) && moveAway == BP.Dec(old(moveAway)) && Valid()
    {
      if numShots <= 0 || moveAway <= 0 {
        r := HideSeek.GetShot(rgen);
      } else {
        r := RangedShot(rgen, tactics.shotRange);
      }
      if r.Success? {
        numShots := BP.Dec(numShots);
        moveAway := BP.Dec(moveAway);
      }
    }
  }

  // ----- what encode and decode compute -----

  /**
   * encode: refuse a message that does not fit; otherwise build the shot
   * generator on the cover, ships included, take one shot per bit of the
   * size header and of the message bits still to be delivered, and write
   * each bit at its shot.
   */
  function EncodeSpec(kind: FilterKind, t: BP.Tactics, img: Image, file: seq<Byte>, delivered: nat,
                      seed: int, start: int, end: int): (r: Result<StegoImage>)
    requires img.Valid() && FilterFirst.ValidRange(start, end) && t.Valid() && delivered <= 8 * |file|
    ensures r.Success? ==> r.value.Valid() && r.value.image.width == img.width &&
                           r.value.image.height == img.height && r.value.image.kind == img.kind
  {
    if !WillMessageFit(|file|, img.width, img.height, HideSeek.Layers(img), HideSeek.BitsPerPixel(start, end)) then
      Failure(IllegalArgument)
    else
      match BP.ShipsSpec(kind, img, end)
      case Failure(e) => Failure(e)
      case Success(fleet) =>
        var bits := EncodedBits(file, delivered);
        match BP.Shots(t, fleet, BP.StartBoard(seed, img, start, end), |bits|)
        case Failure(e) => Failure(e)
        case Success((shots, _)) =>
          BP.RunUsable(t, fleet, seed, img, start, end, |bits|);
          Success(StegoImage(WriteBits(img, shots, bits).value))
  }

  /**
   * decode: build the shot generator on the stego image, take 32 shots for
   * the header, then as many more as the header announces bits, unless
   * that count is implausible; the bits read there are packed into bytes.
   */
  function DecodeSpec(kind: FilterKind, t: BP.Tactics, s: StegoImage, seed: int, start: int, end: int)
    : Result<seq<Byte>>
    requires s.Valid() && FilterFirst.ValidRange(start, end) && t.Valid()
  {
    var img := s.image;
    match BP.ShipsSpec(kind, img, end)
    case Failure(e) => Failure(e)
    case Success(fleet) =>
      match BP.Shots(t, fleet, BP.StartBoard(seed, img, start, end), 32)
      case Failure(e) => Failure(e)
      case Success((hs, b1)) =>
        BP.RunUsable(t, fleet, seed, img, start, end, 32);
        var length := BodyLength(HeaderValue(ReadBits(img, hs).value));
        if Implausible(length, ImageSpace(img.width, img.height, GetLayerCount(s), HideSeek.BitsPerPixel(start, end))) then
          Failure(NoMessage)
        else
          match BP.Shots(t, fleet, b1, length)
          case Failure(e) => Failure(e)
          case Success((bs, _)) =>
            BP.ShotsFresh(t, fleet, b1, length);
            HideSeek.FittingShotsInBounds(img, b1.gen, bs);
            Success(Pack(ReadBits(img, bs).value))
  }

  // ----- the round trip -----

  /**
   * The round trip: when the message fits, nothing overflows and encode
   * succeeds, decoding with the same seed, bit range, tuning and filter
   * gives back the message.
   */
  lemma {:induction false} EncodeDecode(kind: FilterKind, t: BP.Tactics, img: Image, file: seq<Byte>,
                                        seed: int, start: int, end: int)
    requires img.Valid() && FilterFirst.ValidRange(start, end) && t.Valid()
    requires 8 * |file| + 50 < TWO_31 && img.width * img.height * 24 < TWO_31
    requires EncodeSpec(kind, t, img, file, 0, seed, start, end).Success?
    ensures DecodeSpec(kind, t, EncodeSpec(kind, t, img, file, 0, seed, start, end).value, seed, start, end) == Success(file)
  {
    var bits := EncodedBits(file, 0);
    var fleet := BP.ShipsSpec(kind, img, end).value;
    var b0 := BP.StartBoard(seed, img, start, end);
    var (shots, q) := BP.Shots(t, fleet, b0, |bits|).value;
    BP.RunUsable(t, fleet, seed, img, start, end, |bits|);
    var out := WriteBits(img, shots, bits).value;
    assert EncodeSpec(kind, t, img, file, 0, seed, start, end) == Success(StegoImage(out));
    DecodeOfRun(kind, t, img, file, seed, start, end, fleet, shots, q, out);
  }

  /** Decoding the image that a complete run of encode wrote gives back the message. */
  lemma {:induction false} DecodeOfRun(kind: FilterKind, t: BP.Tactics, img: Image, file: seq<Byte>,
                                       seed: int, start: int, end: int, fleet: set<Cell>,
                                       shots: seq<Shot>, q: BP.Board, out: Image)
    requires img.Valid() && FilterFirst.ValidRange(start, end) && t.Valid()
    requires 8 * |file| + 50 < TWO_31 && img.width * img.height * 24 < TWO_31
    requires WillMessageFit(|file|, img.width, img.height, HideSeek.Layers(img), HideSeek.BitsPerPixel(start, end))
    requires BP.ShipsSpec(kind, img, end) == Success(fleet)
    requires BP.Shots(t, fleet, BP.StartBoard(seed, img, start, end), 32 + 8 * |file|) == Success((shots, q))
    requires WriteBits(img, shots, EncodedBits(file, 0)) == Success(out)
    ensures StegoImage(out).Valid()
    ensures DecodeSpec(kind, t, StegoImage(out), seed, start, end) == Success(file)
  {
    var b0 := BP.StartBoard(seed, img, start, end);
    var hs, b1, bs, b2 := RunHalves(t, img, file, seed, start, end, fleet, shots, q, out);
    BP.ShipsSurviveWrites(kind, img, shots, EncodedBits(file, 0), end);
    HideSeek.LengthOfRun(img, file, start, end, out);
    HeaderReadAfterWrite(kind, t, img, out, seed, start, end, fleet, hs, b1, HeaderBits(I32(|file|)));
    DecodeSpecIs(kind, t, StegoImage(out), seed, start, end, fleet, 0, hs, b1, HeaderBits(I32(|file|)), bs, b2, MessageBits(file));
    PackMessage(file);
  }

  /**
   * The run encode made, split after the header: what the writes left at the
   * header shots and at the body shots, and the board decode starts from.
   */
  lemma {:induction false} RunHalves(t: BP.Tactics, img: Image, file: seq<Byte>, seed: int, start: int, end: int,
                                     fleet: set<Cell>, shots: seq<Shot>, q: BP.Board, out: Image)
    returns (hs: seq<Shot>, b1: BP.Board, bs: seq<Shot>, b2: BP.Board)
    requires img.Valid() && FilterFirst.ValidRange(start, end) && t.Valid()
    requires BP.Shots(t, fleet, BP.StartBoard(seed, img, start, end), 32 + 8 * |file|) == Success((shots, q))
    requires WriteBits(img, shots, EncodedBits(file, 0)) == Success(out)
    ensures AllInBounds(img, shots) && FilterFirst.LowBits(shots, end) && |shots| == |EncodedBits(file, 0)|
    ensures BP.StartBoard(seed, out, start, end) == BP.StartBoard(seed, img, start, end)
    ensures BP.Shots(t, fleet, BP.StartBoard(seed, img, start, end), 32) == Success((hs, b1))
    ensures b1.Valid() && BP.Shots(t, fleet, b1, 8 * |file|) == Success((bs, b2))
    ensures ReadBits(out, hs) == Success(HeaderBits(I32(|file|)))
    ensures ReadBits(out, bs) == Success(MessageBits(file))
  {
    hs, b1, bs, b2 := SplitUsableRun(t, img, seed, start, end, fleet, 8 * |file|, shots, q);
    HideSeek.ReadBackParts(img, file, shots, hs, bs, out);
    StartBoardAfterWrite(seed, img, out, start, end);
  }

  /** A run of 32 + n shots from the start: usable, and split into the header run and the body run. */
  lemma {:induction false} SplitUsableRun(t: BP.Tactics, img: Image, seed: int, start: int, end: int,
                                          fleet: set<Cell>, n: nat, shots: seq<Shot>, q: BP.Board)
    returns (hs: seq<Shot>, b1: BP.Board, bs: seq<Shot>, b2: BP.Board)
    requires img.Valid() && FilterFirst.ValidRange(start, end) && t.Valid()
    requires BP.Shots(t, fleet, BP.StartBoard(seed, img, start, end), 32 + n) == Success((shots, q))
    ensures AllInBounds(img, shots) && DistinctAddresses(shots) && FilterFirst.LowBits(shots, end)
    ensures shots == hs + bs && |hs| == 32 && |bs| == n
    ensures BP.Shots(t, fleet, BP.StartBoard(seed, img, start, end), 32) == Success((hs, b1))
    ensures b1.Valid() && BP.Shots(t, fleet, b1, n) == Success((bs, b2))
  {
    BP.RunUsable(t, fleet, seed, img, start, end, 32 + n);
    hs, b1, bs, b2 := BP.SplitRun(t, fleet, BP.StartBoard(seed, img, start, end), 32, n, shots, q);
  }

  /** Writing bits keeps the image's shape, so decode starts from the board encode started from. */
  lemma {:induction false} StartBoardAfterWrite(seed: int, img: Image, out: Image, start: int, end: int)
    requires img.Valid() && out.Valid() && FilterFirst.ValidRange(start, end)
    requires out.width == img.width && out.height == img.height && out.kind == img.kind
    ensures BP.StartBoard(seed, out, start, end) == BP.StartBoard(seed, img, start, end)
  {
    assert HideSeek.StartPicker(seed, out, start, end) == HideSeek.StartPicker(seed, img, start, end);
  }

  /** Decode on the stego image finds the ships and makes the header shots that encode did on the cover. */
  lemma {:induction false} HeaderReadAfterWrite(kind: FilterKind, t: BP.Tactics, img: Image, out: Image,
                                                seed: int, start: int, end: int, fleet: set<Cell>,
                                                hs: seq<Shot>, b1: BP.Board, header: seq<bool>)
    requires img.Valid() && out.Valid() && FilterFirst.ValidRange(start, end) && t.Valid()
    requires BP.ShipsSpec(kind, out, end) == Success(fleet)
    requires BP.StartBoard(seed, out, start, end) == BP.StartBoard(seed, img, start, end)
    requires BP.Shots(t, fleet, BP.StartBoard(seed, img, start, end), 32) == Success((hs, b1))
    requires ReadBits(out, hs) == Success(header)
    ensures HeaderRead(kind, t, StegoImage(out), seed, start, end, fleet, 0, hs, b1, header)
  {
  }

  // ----- the outcomes of the spec functions, one lemma per exit of the Java code -----

  /**
   * The ships of `img` are `fleet`, that is `BP.ShipsSpec(kind, img, end) ==
   * Success(fleet)`, behind `hold` unfoldings: the methods that make the
   * shots carry this fact without seeing how the ships are computed.
   */
  ghost predicate Moored(kind: FilterKind, img: Image, end: int, fleet: set<Cell>, hold: nat)
    requires img.Valid()
    decreases hold
  {
    if hold > 0 then Moored(kind, img, end, fleet, hold - 1) else BP.ShipsSpec(kind, img, end) == Success(fleet)
  }

  lemma {:induction false} MooredAnyHold(kind: FilterKind, img: Image, end: int, fleet: set<Cell>, hold: nat)
    requires img.Valid()
    ensures Moored(kind, img, end, fleet, hold) <==> BP.ShipsSpec(kind, img, end) == Success(fleet)
    decreases hold
  {
    if hold > 0 {
      MooredAnyHold(kind, img, end, fleet, hold - 1);
    }
  }

  lemma {:induction false} EncodeRefused(kind: FilterKind, t: BP.Tactics, img: Image, file: seq<Byte>, delivered: nat,
                                         seed: int, start: int, end: int)
    requires img.Valid() && FilterFirst.ValidRange(start, end) && t.Valid() && delivered <= 8 * |file|
    requires !WillMessageFit(|file|, img.width, img.height, HideSeek.Layers(img), HideSeek.BitsPerPixel(start, end))
    ensures EncodeSpec(kind, t, img, file, delivered, seed, start, end) == Failure(IllegalArgument)
  {
  }

  /** The constructor of the shot generator fails: encode fails with that error. */
  lemma {:induction false} EncodeShipsFail(kind: FilterKind, t: BP.Tactics, img: Image, file: seq<Byte>, delivered: nat,
                                           seed: int, start: int, end: int)
    requires img.Valid() && FilterFirst.ValidRange(start, end) && t.Valid() && delivered <= 8 * |file|
    requires WillMessageFit(|file|, img.width, img.height, HideSeek.Layers(img), HideSeek.BitsPerPixel(start, end))
    requires BP.ShipsSpec(kind, img, end).Failure?
    ensures EncodeSpec(kind, t, img, file, delivered, seed, start, end) == Failure(BP.ShipsSpec(kind, img, end).error)
  {
  }

  /** Shot k of encode cannot be made: encode fails with that error. */
  lemma {:induction false} EncodeShotFails(kind: FilterKind, t: BP.Tactics, img: Image, file: seq<Byte>, delivered: nat,
                                           seed: int, start: int, end: int, fleet: set<Cell>, hold: nat, k: nat)
    requires img.Valid() && FilterFirst.ValidRange(start, end) && t.Valid() && delivered <= 8 * |file|
    requires WillMessageFit(|file|, img.width, img.height, HideSeek.Layers(img), HideSeek.BitsPerPixel(start, end))
    requires Moored(kind, img, end, fleet, hold) && k <= |EncodedBits(file, delivered)|
    requires BP.Shots(t, fleet, BP.StartBoard(seed, img, start, end), k).Failure?
    ensures EncodeSpec(kind, t, img, file, delivered, seed, start, end) ==
            Failure(BP.Shots(t, fleet, BP.StartBoard(seed, img, start, end), k).error)
  {
    MooredAnyHold(kind, img, end, fleet, hold);
    BP.ShotsFailLonger(t, fleet, BP.StartBoard(seed, img, start, end), k, |EncodedBits(file, delivered)|);
  }

  lemma {:induction false} EncodeSpecIs(kind: FilterKind, t: BP.Tactics, img: Image, file: seq<Byte>, delivered: nat,
                                        seed: int, start: int, end: int, fleet: set<Cell>, hold: nat,
                                        shots: seq<Shot>, b: BP.Board, out: Image)
    requires img.Valid() && FilterFirst.ValidRange(start, end) && t.Valid() && delivered <= 8 * |file|
    requires WillMessageFit(|file|, img.width, img.height, HideSeek.Layers(img), HideSeek.BitsPerPixel(start, end))
    requires Moored(kind, img, end, fleet, hold)
    requires BP.Shots(t, fleet, BP.StartBoard(seed, img, start, end), |EncodedBits(file, delivered)|) == Success((shots, b))
    requires WriteBits(img, shots, EncodedBits(file, delivered)) == Success(out)
    ensures EncodeSpec(kind, t, img, file, delivered, seed, start, end) == Success(StegoImage(out))
  {
    MooredAnyHold(kind, img, end, fleet, hold);
  }

  /** The constructor of the shot generator fails: decode fails with that error. */
  lemma {:induction false} DecodeShipsFail(kind: FilterKind, t: BP.Tactics, s: StegoImage, seed: int, start: int, end: int)
    requires s.Valid() && FilterFirst.ValidRange(start, end) && t.Valid()
    requires BP.ShipsSpec(kind, s.image, end).Failure?
    ensures DecodeSpec(kind, t, s, seed, start, end) == Failure(BP.ShipsSpec(kind, s.image, end).error)
  {
  }

  /** A header shot cannot be made: decode fails with that error. */
  lemma {:induction false} DecodeHeaderFails(kind: FilterKind, t: BP.Tactics, s: StegoImage, seed: int, start: int, end: int,
                                             fleet: set<Cell>, hold: nat, k: nat)
    requires s.Valid() && FilterFirst.ValidRange(start, end) && t.Valid() && k <= 32
    requires Moored(kind, s.image, end, fleet, hold)
    requires BP.Shots(t, fleet, BP.StartBoard(seed, s.image, start, end), k).Failure?
    ensures DecodeSpec(kind, t, s, seed, start, end) == Failure(BP.Shots(t, fleet, BP.StartBoard(seed, s.image, start, end), k).error)
  {
    MooredAnyHold(kind, s.image, end, fleet, hold);
    BP.ShotsFailLonger(t, fleet, BP.StartBoard(seed, s.image, start, end), k, 32);
  }

  /** The ships, the 32 header shots, the board after them and the bits read there. */
  ghost predicate HeaderRead(kind: FilterKind, t: BP.Tactics, s: StegoImage, seed: int, start: int, end: int,
                             fleet: set<Cell>, hold: nat, hs: seq<Shot>, b1: BP.Board, header: seq<bool>)
    requires s.Valid() && FilterFirst.ValidRange(start, end) && t.Valid()
  {
    Moored(kind, s.image, end, fleet, hold) &&
    BP.Shots(t, fleet, BP.StartBoard(seed, s.image, start, end), 32) == Success((hs, b1)) &&
    ReadBits(s.image, hs) == Success(header)
  }

  lemma {:induction false} DecodeNoMessage(kind: FilterKind, t: BP.Tactics, s: StegoImage, seed: int, start: int, end: int,
                                           fleet: set<Cell>, hold: nat, hs: seq<Shot>, b1: BP.Board, header: seq<bool>)
    requires s.Valid() && FilterFirst.ValidRange(start, end) && t.Valid()
    requires HeaderRead(kind, t, s, seed, start, end, fleet, hold, hs, b1, header)
    requires Implausible(BodyLength(HeaderValue(header)),
                         ImageSpace(s.image.width, s.image.height, GetLayerCount(s), HideSeek.BitsPerPixel(start, end)))
    ensures DecodeSpec(kind, t, s, seed, start, end) == Failure(NoMessage)
  {
    MooredAnyHold(kind, s.image, end, fleet, hold);
  }

  /** Body shot k cannot be made: decode fails with that error. */
  lemma {:induction false} DecodeBodyFails(kind: FilterKind, t: BP.Tactics, s: StegoImage, seed: int, start: int, end: int,
                                           fleet: set<Cell>, hold: nat, hs: seq<Shot>, b1: BP.Board, header: seq<bool>, k: nat)
    requires s.Valid() && FilterFirst.ValidRange(start, end) && t.Valid()
    requires HeaderRead(kind, t, s, seed, start, end, fleet, hold, hs, b1, header)
    requires !Implausible(BodyLength(HeaderValue(header)),
                          ImageSpace(s.image.width, s.image.height, GetLayerCount(s), HideSeek.BitsPerPixel(start, end)))
    requires k <= BodyLength(HeaderValue(header))
    requires b1.Valid() && BP.Shots(t, fleet, b1, k).Failure?
    ensures DecodeSpec(kind, t, s, seed, start, end) == Failure(BP.Shots(t, fleet, b1, k).error)
  {
    MooredAnyHold(kind, s.image, end, fleet, hold);
    BP.ShotsFailLonger(t, fleet, b1, k, BodyLength(HeaderValue(header)));
  }

  lemma {:induction false} DecodeSpecIs(kind: FilterKind, t: BP.Tactics, s: StegoImage, seed: int, start: int, end: int,
                                        fleet: set<Cell>, hold: nat, hs: seq<Shot>, b1: BP.Board, header: seq<bool>,
                                        bs: seq<Shot>, b2: BP.Board, body: seq<bool>)
    requires s.Valid() && FilterFirst.ValidRange(start, end) && t.Valid()
    requires HeaderRead(kind, t, s, seed, start, end, fleet, hold, hs, b1, header)
    requires !Implausible(BodyLength(HeaderValue(header)),
                          ImageSpace(s.image.width, s.image.height, GetLayerCount(s), HideSeek.BitsPerPixel(start, end)))
    requires b1.Valid() && BP.Shots(t, fleet, b1, BodyLength(HeaderValue(header))) == Success((bs, b2))
    requires ReadBits(s.image, bs) == Success(body)
    ensures DecodeSpec(kind, t, s, seed, start, end) == Success(Pack(body))
  {
    MooredAnyHold(kind, s.image, end, fleet, hold);
  }

  // ----- what outputSimulation computes -----

  /**
   * outputSimulation: refuse a message that does not fit; otherwise build
   * the shot generator on the cover, black out the image and lighten the
   * pixel of every shot encode would make.
   */
  function SimulationSpec(kind: FilterKind, t: BP.Tactics, img: Image, size: nat, delivered: nat,
                          seed: int, start: int, end: int): (r: Result<Image>)
    requires img.Valid() && FilterFirst.ValidRange(start, end) && t.Valid() && delivered <= 8 * size
    ensures r.Success? ==> r.value.Valid() && r.value.width == img.width &&
                           r.value.height == img.height && r.value.kind == img.kind
  {
    if !WillMessageFit(size, img.width, img.height, HideSeek.Layers(img), HideSeek.BitsPerPixel(start, end)) then
      Failure(IllegalArgument)
    else
      match BP.ShipsSpec(kind, img, end)
      case Failure(e) => Failure(e)
      case Success(fleet) =>
        var n := RunLength(size, delivered);
        match BP.Shots(t, fleet, BP.StartBoard(seed, img, start, end), n)
        case Failure(e) => Failure(e)
        case Success((shots, _)) =>
          BP.RunUsable(t, fleet, seed, img, start, end, n);
          Success(HideSeek.Lighten(img, shots))
  }

  /** Shots taken by the simulation: the 32 header bits and the message bits not yet delivered. */
  function RunLength(size: nat, delivered: nat): (n: nat)
    requires delivered <= 8 * size
    ensures n >= 32
  {
    32 + (8 * size - delivered)
  }

  /** The simulation fails exactly when encode does, and for the same reason. */
  lemma {:induction false} SimulationMatchesEncode(kind: FilterKind, t: BP.Tactics, img: Image, file: seq<Byte>,
                                                   delivered: nat, seed: int, start: int, end: int)
    requires img.Valid() && FilterFirst.ValidRange(start, end) && t.Valid() && delivered <= 8 * |file|
    ensures SimulationSpec(kind, t, img, |file|, delivered, seed, start, end).Success? <==>
            EncodeSpec(kind, t, img, file, delivered, seed, start, end).Success?
    ensures SimulationSpec(kind, t, img, |file|, delivered, seed, start, end).Failure? ==>
            SimulationSpec(kind, t, img, |file|, delivered, seed, start, end).error ==
            EncodeSpec(kind, t, img, file, delivered, seed, start, end).error
  {
    var n := RunLength(|file|, delivered);
    assert |EncodedBits(file, delivered)| == n;
    if WillMessageFit(|file|, img.width, img.height, HideSeek.Layers(img), HideSeek.BitsPerPixel(start, end)) {
      match BP.ShipsSpec(kind, img, end)
      case Failure(e) =>
      case Success(fleet) =>
        var b0 := BP.StartBoard(seed, img, start, end);
        if BP.Shots(t, fleet, b0, n).Failure? {
          EncodeShotFails(kind, t, img, file, delivered, seed, start, end, fleet, 0, n);
          SimulationShotFails(kind, t, img, |file|, delivered, seed, start, end, fleet, 0, n);
        }
    }
  }

  /**
   * What the simulation shows: where encode would succeed, a pixel it leaves
   * black is one that encode does not change.
   */
  lemma {:induction false} SimulationCoversEncode(kind: FilterKind, t: BP.Tactics, img: Image, file: seq<Byte>,
                                                  seed: int, start: int, end: int, x: int, y: int)
    requires img.Valid() && FilterFirst.ValidRange(start, end) && t.Valid() && img.InBounds(x, y)
    requires EncodeSpec(kind, t, img, file, 0, seed, start, end).Success?
    ensures SimulationSpec(kind, t, img, |file|, 0, seed, start, end).Success?
    ensures SimulationSpec(kind, t, img, |file|, 0, seed, start, end).value.RGB(x, y) == 0 ==>
            EncodeSpec(kind, t, img, file, 0, seed, start, end).value.image.RGB(x, y) == img.RGB(x, y)
  {
    var shots := BothOfRun(kind, t, img, file, seed, start, end);
    MarkHits(Blacken(img), shots, x, y);
    if !Hits(shots, x, y) {
      WriteBitsOutsideHits(img, shots, EncodedBits(file, 0), x, y);
    }
  }

  /** Where encode succeeds, encode and the simulation use the same run of shots. */
  lemma {:induction false} BothOfRun(kind: FilterKind, t: BP.Tactics, img: Image, file: seq<Byte>,
                                     seed: int, start: int, end: int) returns (shots: seq<Shot>)
    requires img.Valid() && FilterFirst.ValidRange(start, end) && t.Valid()
    requires EncodeSpec(kind, t, img, file, 0, seed, start, end).Success?
    ensures |shots| == |EncodedBits(file, 0)| && AllInBounds(img, shots)
    ensures AllInBounds(Blacken(img), shots)
    ensures SimulationSpec(kind, t, img, |file|, 0, seed, start, end) == Success(Mark(Blacken(img), shots).value)
    ensures EncodeSpec(kind, t, img, file, 0, seed, start, end) == Success(StegoImage(WriteBits(img, shots, EncodedBits(file, 0)).value))
  {
    var n: nat := |EncodedBits(file, 0)|;
    var none: nat := 0;
    assert n == RunLength(|file|, 0);
    if !WillMessageFit(|file|, img.width, img.height, HideSeek.Layers(img), HideSeek.BitsPerPixel(start, end)) {
      EncodeRefused(kind, t, img, file, none, seed, start, end);
      assert false;
    }
    if BP.ShipsSpec(kind, img, end).Failure? {
      EncodeShipsFail(kind, t, img, file, none, seed, start, end);
      assert false;
    }
    var fleet := BP.ShipsSpec(kind, img, end).value;
    var b0 := BP.StartBoard(seed, img, start, end);
    if BP.Shots(t, fleet, b0, n).Failure? {
      EncodeShotFails(kind, t, img, file, none, seed, start, end, fleet, none, n);
      assert false;
    }
    shots := BP.Shots(t, fleet, b0, n).value.0;
    var b := BP.Shots(t, fleet, b0, n).value.1;
    BP.RunUsable(t, fleet, seed, img, start, end, n);
    assert AllInBounds(Blacken(img), shots);
    EncodeSpecIs(kind, t, img, file, 0, seed, start, end, fleet, 0, shots, b, WriteBits(img, shots, EncodedBits(file, 0)).value);
    SimulationSpecIs(kind, t, img, |file|, 0, seed, start, end, fleet, 0, shots, b, Mark(Blacken(img), shots).value);
  }

  lemma {:induction false} SimulationRefused(kind: FilterKind, t: BP.Tactics, img: Image, size: nat, delivered: nat,
                                             seed: int, start: int, end: int)
    requires img.Valid() && FilterFirst.ValidRange(start, end) && t.Valid() && delivered <= 8 * size
    requires !WillMessageFit(size, img.width, img.height, HideSeek.Layers(img), HideSeek.BitsPerPixel(start, end))
    ensures SimulationSpec(kind, t, img, size, delivered, seed, start, end) == Failure(IllegalArgument)
  {
  }

  /** The constructor of the shot generator fails: the simulation fails with that error. */
  lemma {:induction false} SimulationShipsFail(kind: FilterKind, t: BP.Tactics, img: Image, size: nat, delivered: nat,
                                               seed: int, start: int, end: int)
    requires img.Valid() && FilterFirst.ValidRange(start, end) && t.Valid() && delivered <= 8 * size
    requires WillMessageFit(size, img.width, img.height, HideSeek.Layers(img), HideSeek.BitsPerPixel(start, end))
    requires BP.ShipsSpec(kind, img, end).Failure?
    ensures SimulationSpec(kind, t, img, size, delivered, seed, start, end) == Failure(BP.ShipsSpec(kind, img, end).error)
  {
  }

  /** Shot k of the simulation cannot be made: the simulation fails with that error. */
  lemma {:induction false} SimulationShotFails(kind: FilterKind, t: BP.Tactics, img: Image, size: nat, delivered: nat,
                                               seed: int, start: int, end: int, fleet: set<Cell>, hold: nat, k: nat)
    requires img.Valid() && FilterFirst.ValidRange(start, end) && t.Valid() && delivered <= 8 * size
    requires WillMessageFit(size, img.width, img.height, HideSeek.Layers(img), HideSeek.BitsPerPixel(start, end))
    requires Moored(kind, img, end, fleet, hold) && k <= RunLength(size, delivered)
    requires BP.Shots(t, fleet, BP.StartBoard(seed, img, start, end), k).Failure?
    ensures SimulationSpec(kind, t, img, size, delivered, seed, start, end) ==
            Failure(BP.Shots(t, fleet, BP.StartBoard(seed, img, start, end), k).error)
  {
    MooredAnyHold(kind, img, end, fleet, hold);
    var n := RunLength(size, delivered);
    var b0 := BP.StartBoard(seed, img, start, end);
    BP.ShotsFailLonger(t, fleet, b0, k, n);
    assert BP.Shots(t, fleet, b0, n).Failure?;
    assert SimulationSpec(kind, t, img, size, delivered, seed, start, end) == Failure(BP.Shots(t, fleet, b0, n).error);
  }

  lemma {:induction false} SimulationSpecIs(kind: FilterKind, t: BP.Tactics, img: Image, size: nat, delivered: nat,
                                            seed: int, start: int, end: int, fleet: set<Cell>, hold: nat,
                                            shots: seq<Shot>, b: BP.Board, out: Image)
    requires img.Valid() && FilterFirst.ValidRange(start, end) && t.Valid() && delivered <= 8 * size
    requires WillMessageFit(size, img.width, img.height, HideSeek.Layers(img), HideSeek.BitsPerPixel(start, end))
    requires Moored(kind, img, end, fleet, hold)
    requires BP.Shots(t, fleet, BP.StartBoard(seed, img, start, end), RunLength(size, delivered)) == Success((shots, b))
    requires Mark(Blacken(img), shots) == Success(out)
    ensures SimulationSpec(kind, t, img, size, delivered, seed, start, end) == Success(out)
  {
    MooredAnyHold(kind, img, end, fleet, hold);
  }

  // ----- the loops of encode and decode, one getShot at a time -----

  /**
   * A run of shots in progress: the generator object has made `shots` from
   * board b0, with these tactics and ships, and stands at the board after
   * them.
   */
  ghost predicate Aiming(t: BP.Tactics, fleet: set<Cell>, b0: BP.Board, shots: seq<Shot>, bp: BPRandom)
    reads bp, bp.rgen, bp.rgen.random, bp.beenShot, bp.ships
  {
    t.Valid() && b0.Valid() && bp.Valid() && bp.tactics == t && bp.fleet == fleet &&
    BP.Shots(t, fleet, b0, |shots|) == Success((shots, bp.Model()))
  }

  /** `rgen.getShot()` inside a run: the run's next shot, or the error that ends it. */
  method Shoot(bp: BPRandom, ghost t: BP.Tactics, ghost fleet: set<Cell>, ghost b0: BP.Board, ghost shots: seq<Shot>)
    returns (r: Result<Shot>)
    requires Aiming(t, fleet, b0, shots, bp)
    modifies bp, bp.rgen, bp.rgen.random, bp.beenShot
    ensures bp.fleet == fleet
    ensures r.Failure? ==> BP.Shots(t, fleet, b0, |shots| + 1) == Failure(r.error)
    ensures r.Success? ==> Aiming(t, fleet, b0, shots + [r.value], bp) && HideSeek.Fits(b0.gen, r.value)
  {
    BP.ShotsNext(t, fleet, b0, shots, bp.Model());
    r := bp.GetShot();
  }

  /** The first |shots| bits of the embedded stream, written at `shots` in the cover, give `img`. */
  ghost predicate Wrote(cover: Image, file: seq<Byte>, delivered: nat, b0: BP.Board, shots: seq<Shot>, img: Image)
  {
    cover.Valid() && delivered <= 8 * |file| && |shots| <= |EncodedBits(file, delivered)| &&
    b0.gen.width == cover.width && b0.gen.height == cover.height &&
    WriteBits(cover, shots, EncodedBits(file, delivered)[..|shots|]) == Success(img)
  }

  /** Bits the header and message loops of encode have written so far, with the generator at the run's end. */
  ghost predicate Written(cover: Image, file: seq<Byte>, delivered: nat, t: BP.Tactics, fleet: set<Cell>,
                          b0: BP.Board, shots: seq<Shot>, bp: BPRandom, img: Image)
    reads bp, bp.rgen, bp.rgen.random, bp.beenShot, bp.ships
  {
    Wrote(cover, file, delivered, b0, shots, img) && Aiming(t, fleet, b0, shots, bp)
  }

  /** Before the header loop of encode: no shot made, nothing written. */
  lemma {:induction false} StartWritten(cover: Image, file: seq<Byte>, delivered: nat, t: BP.Tactics, fleet: set<Cell>,
                                        b0: BP.Board, bp: BPRandom)
    requires cover.Valid() && delivered <= 8 * |file| && t.Valid() && b0.Valid()
    requires bp.Valid() && bp.tactics == t && bp.fleet == fleet && bp.Model() == b0
    requires b0.gen.width == cover.width && b0.gen.height == cover.height
    ensures Written(cover, file, delivered, t, fleet, b0, [], bp, cover)
  {
    assert EncodedBits(file, delivered)[..0] == [];
  }

  /** After the last bit, encode has made the whole run and written every bit of it. */
  lemma {:induction false} WrittenAll(cover: Image, file: seq<Byte>, delivered: nat, t: BP.Tactics, fleet: set<Cell>,
                                      b0: BP.Board, shots: seq<Shot>, bp: BPRandom, img: Image)
    requires Written(cover, file, delivered, t, fleet, b0, shots, bp, img)
    requires |shots| == |EncodedBits(file, delivered)|
    ensures BP.Shots(t, fleet, b0, |EncodedBits(file, delivered)|) == Success((shots, bp.Model()))
    ensures WriteBits(cover, shots, EncodedBits(file, delivered)) == Success(img)
  {
    var bits := EncodedBits(file, delivered);
    assert bits[..|shots|] == bits;
  }

  /** One shot of encode: the next bit of the embedded stream written at it. */
  method PutBit(ghost cover: Image, ghost file: seq<Byte>, ghost delivered: nat, ghost t: BP.Tactics,
                ghost fleet: set<Cell>, ghost b0: BP.Board, ghost shots: seq<Shot>, bp: BPRandom,
                img: Image, s: Shot, bit: bool) returns (img': Image)
    requires Wrote(cover, file, delivered, b0, shots, img) && |shots| < |EncodedBits(file, delivered)|
    requires Aiming(t, fleet, b0, shots + [s], bp) && HideSeek.Fits(b0.gen, s)
    requires bit == EncodedBits(file, delivered)[|shots|]
    ensures Written(cover, file, delivered, t, fleet, b0, shots + [s], bp, img')
  {
    HideSeek.WriteNext(cover, EncodedBits(file, delivered), HideSeek.Picker(b0.gen, {}), shots, img, s, bit);
    img' := SetPixelBit(img, s.x, s.y, s.layer, s.bitPos, bit);
  }

  /** Pixels the loops of outputSimulation have lightened so far, with the generator at the run's end. */
  ghost predicate Lit(cover: Image, size: nat, delivered: nat, t: BP.Tactics, fleet: set<Cell>,
                      b0: BP.Board, shots: seq<Shot>, bp: BPRandom, image: Image)
    reads bp, bp.rgen, bp.rgen.random, bp.beenShot, bp.ships
  {
    cover.Valid() && delivered <= 8 * size && |shots| <= RunLength(size, delivered) &&
    b0.gen.width == cover.width && b0.gen.height == cover.height &&
    Mark(Blacken(cover), shots) == Success(image) && Aiming(t, fleet, b0, shots, bp)
  }

  class BattleSteg {
    /** mStartBits, mEndBits: the bit positions shots may use. */
    const startBits: int
    const endBits: int
    /** mMoveAway, mInitShots, mShotsIncrease, mShotsRange: handed to every BPRandom. */
    const tactics: BP.Tactics
    /** mFilter: scores the bits above the writable range to place the ships. */
    const filter: Filter

    constructor (start: int, end: int, t: BP.Tactics, f: Filter)
      requires FilterFirst.ValidRange(start, end) && t.Valid()
      ensures startBits == start && endBits == end && tactics == t && filter == f
    {
      startBits := start;
      endBits := end;
      tactics := t;
      filter := f;
    }

    /** The Java constructor: bit ranges outside 0..6 or inverted are refused. */
    static method New(startbits: int, endbits: int, moveaway: int, initshots: int, shotsincrease: int,
                      shotrange: int, filter: Filter) returns (r: Result<BattleSteg>)
      requires IsInt32(moveaway) && IsInt32(initshots) && IsInt32(shotsincrease) && IsInt32(shotrange)
      ensures r.Failure? <==> !FilterFirst.ValidRange(startbits, endbits)
      ensures r.Failure? ==> r.error == IllegalArgument
      ensures r.Success? ==> fresh(r.value) && r.value.startBits == startbits && r.value.endBits == endbits &&
                             r.value.tactics == BP.Tactics(moveaway, initshots, shotsincrease, shotrange) &&
                             r.value.filter == filter
    {
      if startbits > 6 || startbits < 0 {
        return Failure(IllegalArgument);
      }
      if endbits > 6 || endbits < 0 {
        return Failure(IllegalArgument);
      }
      if startbits > endbits {
        return Failure(IllegalArgument);
      }
      var b := new BattleSteg(startbits, endbits, BP.Tactics(moveaway, initshots, shotsincrease, shotrange), filter);
      return Success(b);
    }

    /** The default constructor: bit range 0..0, the tuning 10, 5, 2, 1 and a Laplace filter on bits 1..8. */
    static method Default() returns (b: BattleSteg)
      ensures fresh(b) && fresh(b.filter) && b.startBits == 0 && b.endBits == 0
      ensures b.tactics == BP.Tactics(10, 5, 2, 1)
      ensures b.filter.kind == Laplace && b.filter.image.None? && b.filter.startRange == 1 && b.filter.endRange == 8
    {
      var laplace := new Filter.WithRange(Laplace, 1, 8);
      b := new BattleSteg(0, 0, BP.Tactics(10, 5, 2, 1), laplace);
    }

    /** willMessageFit. */
    function WillFit(message: InsertableMessage, img: Image): bool
      requires img.Valid()
    {
      WillMessageFit(message.GetSize(), img.width, img.height, HideSeek.Layers(img), HideSeek.BitsPerPixel(startBits, endBits))
    }

    /** encode (without LSB matching). */
    method Encode(message: InsertableMessage, cover: Image, seed: int) returns (r: Result<StegoImage>)
      requires FilterFirst.ValidRange(startBits, endBits) && tactics.Valid()
      requires cover.Valid() && message.Valid() && filter.Valid()
      modifies message, filter
      ensures r == EncodeSpec(filter.kind, tactics, cover, message.file, old(message.Delivered()), seed, startBits, endBits)
      ensures !WillFit(message, cover) ==> unchanged(message, filter)
      ensures WillFit(message, cover) ==>
                filter.Valid() && filter.image == Some(cover) && filter.startRange == endBits + 1 && filter.endRange == 8
      ensures r.Success? ==> message.Valid() && message.Delivered() == 8 * |message.file|
    {
      ghost var delivered := message.Delivered();
      ghost var file := message.file;
      if !WillFit(message, cover) {
        EncodeRefused(filter.kind, tactics, cover, file, delivered, seed, startBits, endBits);
        return Failure(IllegalArgument);
      }
      var made := BPRandom.New(seed, startBits, endBits, cover, tactics, filter);
      if made.Failure? {
        EncodeShipsFail(filter.kind, tactics, cover, file, delivered, seed, startBits, endBits);
        return Failure(made.error);
      }
      ghost var hold: nat :| true;
      MooredAnyHold(filter.kind, cover, endBits, made.value.fleet, hold);
      r := EncodeWith(message, cover, seed, made.value, file, delivered, hold);
    }

    /** encode once the message fits and the generator stands: the header loop, then the message loop. */
    method EncodeWith(message: InsertableMessage, cover: Image, ghost seed: int, bp: BPRandom,
                      ghost file: seq<Byte>, ghost delivered: nat, ghost hold: nat) returns (r: Result<StegoImage>)
      requires FilterFirst.ValidRange(startBits, endBits) && tactics.Valid() && cover.Valid()
      requires message.Valid() && message.file == file && message.Delivered() == delivered
      requires WillMessageFit(|file|, cover.width, cover.height, HideSeek.Layers(cover), HideSeek.BitsPerPixel(startBits, endBits))
      requires bp.Valid() && bp.tactics == tactics && bp.Model() == BP.StartBoard(seed, cover, startBits, endBits)
      requires Moored(filter.kind, cover, endBits, bp.fleet, hold)
      modifies bp, bp.rgen, bp.rgen.random, bp.beenShot, message
      ensures r == EncodeSpec(filter.kind, tactics, cover, file, delivered, seed, startBits, endBits)
      ensures r.Success? ==> message.Valid() && !message.NotFinished()
    {
      ghost var b0 := bp.Model();
      ghost var fleet := bp.fleet;
      var out, shots := EncodeRun(message, cover, bp, file, delivered);
      if out.Failure? {
        EncodeShotFails(filter.kind, tactics, cover, file, delivered, seed, startBits, endBits, fleet, hold, |shots| + 1);
        return Failure(out.error);
      }
      EncodeSpecIs(filter.kind, tactics, cover, file, delivered, seed, startBits, endBits, fleet, hold, shots, bp.Model(), out.value);
      return Success(StegoImage(out.value));
    }

    /** Both loops of encode, from a generator that has made no shot. */
    method EncodeRun(message: InsertableMessage, cover: Image, bp: BPRandom, ghost file: seq<Byte>, ghost delivered: nat)
      returns (r: Result<Image>, ghost shots: seq<Shot>)
      requires tactics.Valid() && cover.Valid() && message.Valid() && message.file == file && message.Delivered() == delivered
      requires bp.Valid() && bp.tactics == tactics
      requires bp.Model().gen.width == cover.width && bp.Model().gen.height == cover.height
      modifies bp, bp.rgen, bp.rgen.random, bp.beenShot, message
      ensures bp.fleet == old(bp.fleet)
      ensures r.Failure? ==> |shots| < |EncodedBits(file, delivered)| &&
                             BP.Shots(tactics, bp.fleet, old(bp.Model()), |shots| + 1) == Failure(r.error)
      ensures r.Success? ==> BP.Shots(tactics, bp.fleet, old(bp.Model()), |EncodedBits(file, delivered)|) == Success((shots, bp.Model()))
      ensures r.Success? ==> WriteBits(cover, shots, EncodedBits(file, delivered)) == Success(r.value)
      ensures r.Success? ==> message.Valid() && !message.NotFinished()
    {
      ghost var b0 := bp.Model();
      ghost var fleet := bp.fleet;
      StartWritten(cover, file, delivered, tactics, fleet, b0, bp);
      var messageSize := I32(message.GetSize());
      var img, hs := EncodeHeader(cover, file, delivered, fleet, b0, bp, messageSize);
      if img.Failure? {
        return Failure(img.error), hs;
      }
      assert message.Valid() && message.file == file && message.Delivered() == delivered;
      var out;
      out, shots := EncodeBody(cover, file, delivered, fleet, b0, hs, bp, img.value, message);
      if out.Failure? {
        return Failure(out.error), shots;
      }
      WrittenAll(cover, file, delivered, tactics, fleet, b0, shots, bp, out.value);
      return out, shots;
    }

    /** The header loop of encode: the 32 bits of the message size, least significant first. */
    method EncodeHeader(cover: Image, ghost file: seq<Byte>, ghost delivered: nat, ghost fleet: set<Cell>,
                        ghost b0: BP.Board, bp: BPRandom, messageSize: int)
      returns (r: Result<Image>, ghost shots: seq<Shot>)
      requires Written(cover, file, delivered, tactics, fleet, b0, [], bp, cover)
      requires messageSize == I32(|file|)
      modifies bp, bp.rgen, bp.rgen.random, bp.beenShot
      ensures bp.fleet == fleet
      ensures r.Failure? ==> |shots| < 32 && BP.Shots(tactics, fleet, b0, |shots| + 1) == Failure(r.error)
      ensures r.Success? ==> |shots| == 32 && Written(cover, file, delivered, tactics, fleet, b0, shots, bp, r.value)
    {
      shots := [];
      var img := cover;
      for i := 0 to 32
        invariant |shots| == i
        invariant Written(cover, file, delivered, tactics, fleet, b0, shots, bp, img)
      {
        var sh := Shoot(bp, tactics, fleet, b0, shots);
        if sh.Failure? {
          return Failure(sh.error), shots;
        }
        var bit := JavaBit(messageSize, i);
        EncodedHeaderBit(file, delivered, i);
        img := PutBit(cover, file, delivered, tactics, fleet, b0, shots, bp, img, sh.value, bit);
        shots := shots + [sh.value];
      }
      r := Success(img);
    }

    /** The message loop of encode: one shot and one bit per pass until the message is finished. */
    method EncodeBody(ghost cover: Image, ghost file: seq<Byte>, ghost delivered: nat, ghost fleet: set<Cell>,
                      ghost b0: BP.Board, ghost shots0: seq<Shot>, bp: BPRandom, img0: Image, message: InsertableMessage)
      returns (r: Result<Image>, ghost shots: seq<Shot>)
      requires Written(cover, file, delivered, tactics, fleet, b0, shots0, bp, img0)
      requires message.Valid() && message.file == file && delivered <= message.Delivered()
      requires |shots0| == 32 + (message.Delivered() - delivered)
      modifies bp, bp.rgen, bp.rgen.random, bp.beenShot, message
      ensures bp.fleet == fleet
      ensures r.Failure? ==> |shots| < |EncodedBits(file, delivered)| && BP.Shots(tactics, fleet, b0, |shots| + 1) == Failure(r.error)
      ensures r.Success? ==>
                |shots| == |EncodedBits(file, delivered)| &&
                Written(cover, file, delivered, tactics, fleet, b0, shots, bp, r.value)
      ensures r.Success? ==> message.Valid() && !message.NotFinished()
    {
      shots := shots0;
      var img := img0;
      while message.NotFinished()
        invariant message.Valid() && message.file == file
        invariant delivered <= message.Delivered() <= 8 * |file|
        invariant |shots| == 32 + (message.Delivered() - delivered)
        invariant Written(cover, file, delivered, tactics, fleet, b0, shots, bp, img)
        decreases 8 * |file| - message.Delivered()
      {
        var next := PutMessageBit(cover, file, delivered, fleet, b0, shots, bp, img, message);
        if next.Failure? {
          return Failure(next.error), shots;
        }
        shots := shots + [next.value.0];
        img := next.value.1;
      }
      r := Success(img);
    }

    /** One pass of the message loop of encode: a shot, then the next message bit written there. */
    method PutMessageBit(ghost cover: Image, ghost file: seq<Byte>, ghost delivered: nat, ghost fleet: set<Cell>,
                         ghost b0: BP.Board, ghost shots: seq<Shot>, bp: BPRandom, img: Image, message: InsertableMessage)
      returns (r: Result<(Shot, Image)>)
      requires Written(cover, file, delivered, tactics, fleet, b0, shots, bp, img)
      requires message.Valid() && message.file == file && !message.finished
      requires delivered <= message.Delivered() && |shots| == 32 + (message.Delivered() - delivered)
      modifies bp, bp.rgen, bp.rgen.random, bp.beenShot, message
      ensures bp.fleet == fleet
      ensures r.Failure? ==> BP.Shots(tactics, fleet, b0, |shots| + 1) == Failure(r.error)
      ensures r.Success? ==>
                Written(cover, file, delivered, tactics, fleet, b0, shots + [r.value.0], bp, r.value.1) &&
                message.Valid() && message.file == file && message.Delivered() == old(message.Delivered()) + 1
    {
      var sh := Shoot(bp, tactics, fleet, b0, shots);
      if sh.Failure? {
        return Failure(sh.error);
      }
      var bit := NextEncodedBit(message, file, delivered);
      var img' := PutBit(cover, file, delivered, tactics, fleet, b0, shots, bp, img, sh.value, bit);
      r := Success((sh.value, img'));
    }

    /** decode: the message bytes, as written to the output file. */
    method Decode(simage: StegoImage, seed: int) returns (r: Result<seq<Byte>>)
      requires FilterFirst.ValidRange(startBits, endBits) && tactics.Valid() && simage.Valid() && filter.Valid()
      modifies filter
      ensures r == DecodeSpec(filter.kind, tactics, simage, seed, startBits, endBits)
      ensures filter.Valid() && filter.image == Some(simage.image) && filter.startRange == endBits + 1 &&
              filter.endRange == 8
    {
      var made := BPRandom.New(seed, startBits, endBits, simage.image, tactics, filter);
      if made.Failure? {
        DecodeShipsFail(filter.kind, tactics, simage, seed, startBits, endBits);
        return Failure(made.error);
      }
      ghost var hold: nat :| true;
      MooredAnyHold(filter.kind, simage.image, endBits, made.value.fleet, hold);
      r := DecodeWith(simage, seed, made.value, hold);
    }

    /** decode once the generator stands: the header loop, the plausibility check and the body loop. */
    method DecodeWith(simage: StegoImage, ghost seed: int, bp: BPRandom, ghost hold: nat) returns (r: Result<seq<Byte>>)
      requires FilterFirst.ValidRange(startBits, endBits) && tactics.Valid() && simage.Valid()
      requires bp.Valid() && bp.tactics == tactics && bp.Model() == BP.StartBoard(seed, simage.image, startBits, endBits)
      requires Moored(filter.kind, simage.image, endBits, bp.fleet, hold)
      modifies bp, bp.rgen, bp.rgen.random, bp.beenShot
      ensures r == DecodeSpec(filter.kind, tactics, simage, seed, startBits, endBits)
    {
      ghost var fleet := bp.fleet;
      var size;
      ghost var hs, b1, header;
      size, hs, b1, header := ReadHeaderBits(simage, bp);
      if size.Failure? {
        DecodeHeaderFails(filter.kind, tactics, simage, seed, startBits, endBits, fleet, hold, |hs| + 1);
        return Failure(size.error);
      }
      r := DecodeSized(simage, seed, bp, hold, hs, b1, header, size.value);
    }

    /** decode after the header loop: the size reversed and checked, then the body loop. */
    method DecodeSized(simage: StegoImage, ghost seed: int, bp: BPRandom, ghost hold: nat,
                       ghost hs: seq<Shot>, ghost b1: BP.Board, ghost header: seq<bool>, size: int)
      returns (r: Result<seq<Byte>>)
      requires FilterFirst.ValidRange(startBits, endBits) && tactics.Valid() && simage.Valid()
      requires HeaderRead(filter.kind, tactics, simage, seed, startBits, endBits, bp.fleet, hold, hs, b1, header)
      requires |header| == 32 && size == I32(FromMsb(header))
      requires Aiming(tactics, bp.fleet, b1, [], bp)
      requires b1.gen.width == simage.image.width && b1.gen.height == simage.image.height
      modifies bp, bp.rgen, bp.rgen.random, bp.beenShot
      ensures r == DecodeSpec(filter.kind, tactics, simage, seed, startBits, endBits)
    {
      ghost var fleet := bp.fleet;
      var size2 := ReverseHeader(size, header);
      size2 := BodyLength(size2);
      var imageSpace := ImageSpace(simage.image.width, simage.image.height, GetLayerCount(simage),
                                   HideSeek.BitsPerPixel(startBits, endBits));
      if Implausible(size2, imageSpace) {
        DecodeNoMessage(filter.kind, tactics, simage, seed, startBits, endBits, fleet, hold, hs, b1, header);
        return Failure(NoMessage);
      }
      var body, bs, b2, received := ReadBody(simage, bp, fleet, b1, size2);
      if body.Failure? {
        DecodeBodyFails(filter.kind, tactics, simage, seed, startBits, endBits, fleet, hold, hs, b1, header, |bs| + 1);
        return body;
      }
      DecodeSpecIs(filter.kind, tactics, simage, seed, startBits, endBits, fleet, hold, hs, b1, header, bs, b2, received);
      return body;
    }

    /**
     * The header loop of decode: 32 shots, the bit at each shifted into the
     * size. A shot that cannot be made ends decode with its error.
     */
    static method ReadHeaderBits(simage: StegoImage, bp: BPRandom)
      returns (r: Result<int>, ghost hs: seq<Shot>, ghost b1: BP.Board, ghost header: seq<bool>)
      requires simage.Valid() && bp.Valid()
      requires bp.Model().gen.width == simage.image.width && bp.Model().gen.height == simage.image.height
      modifies bp, bp.rgen, bp.rgen.random, bp.beenShot
      ensures bp.fleet == old(bp.fleet)
      ensures r.Failure? ==> |hs| < 32 && BP.Shots(bp.tactics, bp.fleet, old(bp.Model()), |hs| + 1) == Failure(r.error)
      ensures r.Success? ==>
                |header| == 32 && r.value == I32(FromMsb(header)) &&
                BP.Shots(bp.tactics, bp.fleet, old(bp.Model()), 32) == Success((hs, b1)) &&
                ReadBits(simage.image, hs) == Success(header) &&
                Aiming(bp.tactics, bp.fleet, b1, [], bp) &&
                b1.gen.width == simage.image.width && b1.gen.height == simage.image.height
    {
      ghost var b0 := bp.Model();
      ghost var fleet := bp.fleet;
      var size := 0;
      hs, header := [], [];
      for i := 0 to 32
        invariant |hs| == |header| == i
        invariant Aiming(bp.tactics, fleet, b0, hs, bp)
        invariant ReadBits(simage.image, hs) == Success(header)
        invariant size == I32(FromMsb(header))
      {
        var bit, s := ReadNext(simage, bp, bp.tactics, fleet, b0, hs, header);
        if bit.Failure? {
          return Failure(bit.error), hs, b0, header;
        }
        hs := hs + [s];
        ShiftInMsb(header, bit.value == 1);
        size := ShiftIn(size, bit.value == 1);
        header := header + [bit.value == 1];
      }
      b1 := bp.Model();
      r := Success(size);
    }

    /**
     * The body loop of decode: `length` more shots, their bits into a
     * retrieved message, which is then closed; its output is the message.
     */
    static method ReadBody(simage: StegoImage, bp: BPRandom, ghost fleet: set<Cell>, ghost b1: BP.Board, length: int)
      returns (r: Result<seq<Byte>>, ghost bs: seq<Shot>, ghost b2: BP.Board, ghost received: seq<bool>)
      requires simage.Valid() && Aiming(bp.tactics, fleet, b1, [], bp) && length >= 0
      requires b1.gen.width == simage.image.width && b1.gen.height == simage.image.height
      modifies bp, bp.rgen, bp.rgen.random, bp.beenShot
      ensures r.Failure? ==> |bs| < length && BP.Shots(bp.tactics, fleet, b1, |bs| + 1) == Failure(r.error)
      ensures r.Success? ==>
                BP.Shots(bp.tactics, fleet, b1, length) == Success((bs, b2)) &&
                ReadBits(simage.image, bs) == Success(received) && r.value == Pack(received)
    {
      var rmess := new RetrievedMessage();
      var res;
      res, bs := ReadBodyBits(simage, bp, bp.tactics, fleet, b1, length, rmess);
      b2 := bp.Model();
      received := rmess.received;
      if res.Failure? {
        return Failure(res.error), bs, b2, received;
      }
      rmess.Close();
      return Success(rmess.output), bs, b2, received;
    }

    /** The loop of the body: `length` shots, the bit at each passed to the retrieved message. */
    static method ReadBodyBits(simage: StegoImage, bp: BPRandom, ghost t: BP.Tactics, ghost fleet: set<Cell>,
                               ghost b1: BP.Board, length: int, rmess: RetrievedMessage)
      returns (r: Result<()>, ghost bs: seq<Shot>)
      requires simage.Valid() && Aiming(t, fleet, b1, [], bp)
      requires b1.gen.width == simage.image.width && b1.gen.height == simage.image.height
      requires rmess.Valid() && !rmess.finished && rmess.received == [] && length >= 0
      modifies bp, bp.rgen, bp.rgen.random, bp.beenShot, rmess
      ensures r.Failure? ==> |bs| < length && BP.Shots(t, fleet, b1, |bs| + 1) == Failure(r.error)
      ensures r.Success? ==> BP.Shots(t, fleet, b1, length) == Success((bs, bp.Model()))
      ensures r.Success? ==> rmess.Valid() && !rmess.finished && ReadBits(simage.image, bs) == Success(rmess.received)
    {
      bs := [];
      for k := 0 to length
        invariant |bs| == k
        invariant Aiming(t, fleet, b1, bs, bp)
        invariant rmess.Valid() && !rmess.finished
        invariant ReadBits(simage.image, bs) == Success(rmess.received)
      {
        var bit, s := ReadNext(simage, bp, t, fleet, b1, bs, rmess.received);
        if bit.Failure? {
          return Failure(bit.error), bs;
        }
        var _ := rmess.SetNext(bit.value == 1);
        bs := bs + [s];
      }
      return Success(()), bs;
    }

    /** The body of both loops of decode: a shot, and the bit at it. */
    static method ReadNext(simage: StegoImage, bp: BPRandom, ghost t: BP.Tactics, ghost fleet: set<Cell>,
                           ghost b0: BP.Board, ghost shots: seq<Shot>, ghost prev: seq<bool>)
      returns (r: Result<int>, s: Shot)
      requires simage.Valid() && Aiming(t, fleet, b0, shots, bp)
      requires b0.gen.width == simage.image.width && b0.gen.height == simage.image.height
      requires ReadBits(simage.image, shots) == Success(prev)
      modifies bp, bp.rgen, bp.rgen.random, bp.beenShot
      ensures bp.fleet == fleet
      ensures r.Failure? ==> BP.Shots(t, fleet, b0, |shots| + 1) == Failure(r.error)
      ensures r.Success? ==>
                (r.value == 0 || r.value == 1) && Aiming(t, fleet, b0, shots + [s], bp) &&
                ReadBits(simage.image, shots + [s]) == Success(prev + [r.value == 1])
    {
      var sh := Shoot(bp, t, fleet, b0, shots);
      s := Shot(0, 0, 0, 0);
      if sh.Failure? {
        return Failure(sh.error), s;
      }
      s := sh.value;
      r := GetPixelBit(simage, s.x, s.y, s.layer, s.bitPos);
      ReadStep(simage.image, shots, prev, s, r.value);
    }

    /** outputSimulation: the map of the pixels encode would write to. */
    method OutputSimulation(message: InsertableMessage, cover: Image, seed: int) returns (r: Result<Image>)
      requires FilterFirst.ValidRange(startBits, endBits) && tactics.Valid()
      requires cover.Valid() && message.Valid() && filter.Valid()
      modifies message, filter
      ensures r == SimulationSpec(filter.kind, tactics, cover, |message.file|, old(message.Delivered()), seed, startBits, endBits)
      ensures !WillFit(message, cover) ==> unchanged(message, filter)
      ensures WillFit(message, cover) ==>
                filter.Valid() && filter.image == Some(cover) && filter.startRange == endBits + 1 && filter.endRange == 8
      ensures r.Success? ==> message.Valid() && message.Delivered() == 8 * |message.file|
    {
      ghost var delivered := message.Delivered();
      ghost var size := |message.file|;
      if !WillFit(message, cover) {
        SimulationRefused(filter.kind, tactics, cover, size, delivered, seed, startBits, endBits);
        return Failure(IllegalArgument);
      }
      var made := BPRandom.New(seed, startBits, endBits, cover, tactics, filter);
      if made.Failure? {
        SimulationShipsFail(filter.kind, tactics, cover, size, delivered, seed, startBits, endBits);
        return Failure(made.error);
      }
      ghost var hold: nat :| true;
      MooredAnyHold(filter.kind, cover, endBits, made.value.fleet, hold);
      r := SimulateWith(message, cover, seed, made.value, size, delivered, hold);
    }

    /** outputSimulation once the message fits and the generator stands: black out, then both loops. */
    method SimulateWith(message: InsertableMessage, cover: Image, ghost seed: int, bp: BPRandom,
                        ghost size: nat, ghost delivered: nat, ghost hold: nat) returns (r: Result<Image>)
      requires FilterFirst.ValidRange(startBits, endBits) && tactics.Valid() && cover.Valid()
      requires message.Valid() && |message.file| == size && message.Delivered() == delivered
      requires WillMessageFit(size, cover.width, cover.height, HideSeek.Layers(cover), HideSeek.BitsPerPixel(startBits, endBits))
      requires bp.Valid() && bp.tactics == tactics && bp.Model() == BP.StartBoard(seed, cover, startBits, endBits)
      requires Moored(filter.kind, cover, endBits, bp.fleet, hold)
      modifies bp, bp.rgen, bp.rgen.random, bp.beenShot, message
      ensures r == SimulationSpec(filter.kind, tactics, cover, size, delivered, seed, startBits, endBits)
      ensures r.Success? ==> message.Valid() && !message.NotFinished()
    {
      ghost var fleet := bp.fleet;
      var image := BlackOut(cover);
      var out, shots := MarkRun(message, cover, bp, image, size, delivered);
      if out.Failure? {
        SimulationShotFails(filter.kind, tactics, cover, size, delivered, seed, startBits, endBits, fleet, hold, |shots| + 1);
        return Failure(out.error);
      }
      SimulationSpecIs(filter.kind, tactics, cover, size, delivered, seed, startBits, endBits, fleet, hold, shots, bp.Model(), out.value);
      return out;
    }

    /** Both loops of outputSimulation, from a generator that has made no shot and the blacked-out image. */
    method MarkRun(message: InsertableMessage, ghost cover: Image, bp: BPRandom, image: Image,
                   ghost size: nat, ghost delivered: nat) returns (r: Result<Image>, ghost shots: seq<Shot>)
      requires tactics.Valid() && cover.Valid() && message.Valid() && |message.file| == size && message.Delivered() == delivered
      requires image == Blacken(cover)
      requires bp.Valid() && bp.tactics == tactics
      requires bp.Model().gen.width == cover.width && bp.Model().gen.height == cover.height
      modifies bp, bp.rgen, bp.rgen.random, bp.beenShot, message
      ensures bp.fleet == old(bp.fleet)
      ensures r.Failure? ==> |shots| < RunLength(size, delivered) &&
                             BP.Shots(tactics, bp.fleet, old(bp.Model()), |shots| + 1) == Failure(r.error)
      ensures r.Success? ==> BP.Shots(tactics, bp.fleet, old(bp.Model()), RunLength(size, delivered)) == Success((shots, bp.Model()))
      ensures r.Success? ==> Mark(Blacken(cover), shots) == Success(r.value)
      ensures r.Success? ==> message.Valid() && !message.NotFinished()
    {
      ghost var b0 := bp.Model();
      ghost var fleet := bp.fleet;
      var marked, hs := MarkHeader(cover, size, delivered, fleet, b0, bp, image);
      if marked.Failure? {
        return Failure(marked.error), hs;
      }
      r, shots := MarkBody(cover, size, delivered, fleet, b0, hs, bp, marked.value, message);
    }

    /** The first loop of outputSimulation: the 32 shots of the size header. */
    method MarkHeader(ghost cover: Image, ghost size: nat, ghost delivered: nat, ghost fleet: set<Cell>,
                      ghost b0: BP.Board, bp: BPRandom, image0: Image) returns (r: Result<Image>, ghost shots: seq<Shot>)
      requires cover.Valid() && delivered <= 8 * size && image0 == Blacken(cover)
      requires bp.Valid() && bp.tactics == tactics && bp.fleet == fleet && bp.Model() == b0
      requires b0.gen.width == cover.width && b0.gen.height == cover.height
      modifies bp, bp.rgen, bp.rgen.random, bp.beenShot
      ensures bp.fleet == fleet
      ensures r.Failure? ==> |shots| < 32 && BP.Shots(tactics, fleet, b0, |shots| + 1) == Failure(r.error)
      ensures r.Success? ==> |shots| == 32 && Lit(cover, size, delivered, tactics, fleet, b0, shots, bp, r.value)
    {
      shots := [];
      var image := image0;
      for i := 0 to 32
        invariant |shots| == i
        invariant Lit(cover, size, delivered, tactics, fleet, b0, shots, bp, image)
      {
        var next := MarkNext(cover, size, delivered, fleet, b0, shots, bp, image);
        if next.Failure? {
          return Failure(next.error), shots;
        }
        shots := shots + [next.value.0];
        image := next.value.1;
      }
      r := Success(image);
    }

    /** The second loop of outputSimulation: one shot per message bit until the message is finished. */
    method MarkBody(ghost cover: Image, ghost size: nat, ghost delivered: nat, ghost fleet: set<Cell>,
                    ghost b0: BP.Board, ghost shots0: seq<Shot>, bp: BPRandom, image0: Image, message: InsertableMessage)
      returns (r: Result<Image>, ghost shots: seq<Shot>)
      requires Lit(cover, size, delivered, tactics, fleet, b0, shots0, bp, image0)
      requires message.Valid() && |message.file| == size && delivered <= message.Delivered()
      requires |shots0| == 32 + (message.Delivered() - delivered)
      modifies bp, bp.rgen, bp.rgen.random, bp.beenShot, message
      ensures bp.fleet == fleet
      ensures r.Failure? ==> |shots| < RunLength(size, delivered) && BP.Shots(tactics, fleet, b0, |shots| + 1) == Failure(r.error)
      ensures r.Success? ==>
                BP.Shots(tactics, fleet, b0, RunLength(size, delivered)) == Success((shots, bp.Model())) &&
                Mark(Blacken(cover), shots) == Success(r.value)
      ensures r.Success? ==> message.Valid() && !message.NotFinished()
    {
      shots := shots0;
      var image := image0;
      while message.NotFinished()
        invariant message.Valid() && |message.file| == size
        invariant delivered <= message.Delivered() <= 8 * size
        invariant |shots| == 32 + (message.Delivered() - delivered)
        invariant Lit(cover, size, delivered, tactics, fleet, b0, shots, bp, image)
        decreases 8 * size - message.Delivered()
      {
        var next := MarkBit(cover, size, delivered, fleet, b0, shots, bp, image, message);
        if next.Failure? {
          return Failure(next.error), shots;
        }
        shots := shots + [next.value.0];
        image := next.value.1;
      }
      r := Success(image);
    }

    /** One pass of the message loop of outputSimulation: a pixel lightened, and a message bit used up. */
    method MarkBit(ghost cover: Image, ghost size: nat, ghost delivered: nat, ghost fleet: set<Cell>,
                   ghost b0: BP.Board, ghost shots: seq<Shot>, bp: BPRandom, image: Image, message: InsertableMessage)
      returns (r: Result<(Shot, Image)>)
      requires Lit(cover, size, delivered, tactics, fleet, b0, shots, bp, image)
      requires message.Valid() && |message.file| == size && delivered <= message.Delivered() < 8 * size
      requires |shots| == 32 + (message.Delivered() - delivered)
      modifies bp, bp.rgen, bp.rgen.random, bp.beenShot, message
      ensures bp.fleet == fleet
      ensures r.Failure? ==> BP.Shots(tactics, fleet, b0, |shots| + 1) == Failure(r.error)
      ensures r.Success? ==> Lit(cover, size, delivered, tactics, fleet, b0, shots + [r.value.0], bp, r.value.1)
      ensures r.Success? ==> message.Valid() && |message.file| == size &&
                             message.Delivered() == old(message.Delivered()) + 1
    {
      r := MarkNext(cover, size, delivered, fleet, b0, shots, bp, image);
      if r.Success? {
        var _ := message.NextBit();
      }
    }

    /** One pass of either loop of outputSimulation: a shot, and its pixel lightened. */
    method MarkNext(ghost cover: Image, ghost size: nat, ghost delivered: nat, ghost fleet: set<Cell>,
                    ghost b0: BP.Board, ghost shots: seq<Shot>, bp: BPRandom, image: Image)
      returns (r: Result<(Shot, Image)>)
      requires Lit(cover, size, delivered, tactics, fleet, b0, shots, bp, image)
      requires |shots| < RunLength(size, delivered)
      modifies bp, bp.rgen, bp.rgen.random, bp.beenShot
      ensures bp.fleet == fleet
      ensures r.Failure? ==> BP.Shots(tactics, fleet, b0, |shots| + 1) == Failure(r.error)
      ensures r.Success? ==> Lit(cover, size, delivered, tactics, fleet, b0, shots + [r.value.0], bp, r.value.1)
    {
      var sh := Shoot(bp, tactics, fleet, b0, shots);
      if sh.Failure? {
        return Failure(sh.error);
      }
      var s := sh.value;
      MarkStep(Blacken(cover), shots, image, s);
      r := Success((s, SetRGB(image, s.x, s.y, DecreaseDarkness(image.RGB(s.x, s.y)))));
    }
  }
}
