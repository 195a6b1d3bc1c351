/**
 * FilterFirst: the picker scores every pixel with a filter that sees only
 * the bits above the writable range, sorts the pixels by score, and then
 * walks a counter down from W * H * 3 * bpp; each counter value names one
 * bit of one colour layer of one pixel of the sorted list. Because encoding
 * only touches bits the filter cannot see, decoding scores the stego image
 * exactly as encoding scored the cover, sorts it the same way and visits the
 * same addresses.
 */
module FilterFirst {
  import opened Basics
  import opened Bits
  import opened Raster
  import opened StegoImage
  import opened Protocol
  import opened InsertableMessage
  import opened RetrievedMessage
  import opened Simulation
  import opened FilteredPixels
  import opened FPComparator
  import opened Filters
  import BlindHide

  /** The bit ranges the constructor accepts: 0 <= start <= end <= 6. */
  predicate ValidRange(start: int, end: int)
  {
    0 <= start <= end <= 6
  }

  /** Bits per pixel, `(end - start) + 1`. */
  function BitsPerPixel(start: int, end: int): int
  {
    (end - start) + 1
  }

  /** A `BufferedImage` keeps its pixels in one Java array, so W * H is an int. */
  predicate Addressable(img: Image)
  {
    img.width * img.height < TWO_31
  }

  function Layers(img: Image): int
  {
    GetLayerCount(StegoImage(img))
  }

  // ----- generateList: the scored pixels -----

  /** The mask the picker gives the filter: bits end+1 .. 8 of each colour, the ones encode never writes. */
  function PickerMask(end: int): bv32
  {
    ByteMask(end + 1, 8)
  }

  /** `Math.abs(filter.getValue(x, y))` with the image set: defined at every pixel. */
  function Score(kind: FilterKind, img: Image, mask: bv32, x: int, y: int): nat
    requires img.Valid() && img.InBounds(x, y)
  {
    Abs(FilterValue(kind, Some(img), mask, x, y).value)
  }

  /** The entry generateList stores at index k = x * H + y: pixel (x, y) and its score. */
  function Entry(kind: FilterKind, img: Image, mask: bv32, k: int): FilteredPixel
    requires img.Valid() && 0 <= k < img.width * img.height
  {
    EntryBounds(img, k);
    FilteredPixel(k / img.height, k % img.height, Score(kind, img, mask, k / img.height, k % img.height))
  }

  /** Entry k is pixel (k / H, k % H), inside the image. */
  lemma {:induction false} EntryIs(kind: FilterKind, img: Image, mask: bv32, k: int)
    requires img.Valid() && 0 <= k < img.width * img.height
    ensures Entry(kind, img, mask, k).x == k / img.height && Entry(kind, img, mask, k).y == k % img.height
    ensures img.InBounds(Entry(kind, img, mask, k).x, Entry(kind, img, mask, k).y)
  {
    EntryBounds(img, k);
  }

  /**
   * The first n entries generateList stores, in the order its loops store
   * them; entry k holds pixel (k / H, k % H).
   */
  function ScoresUpTo(kind: FilterKind, img: Image, mask: bv32, n: nat): (s: seq<FilteredPixel>)
    requires img.Valid() && n <= img.width * img.height
    ensures |s| == n
  {
    if n == 0 then [] else ScoresUpTo(kind, img, mask, n - 1) + [Entry(kind, img, mask, n - 1)]
  }

  /** The array generateList fills column by column, before sorting. */
  function Scores(kind: FilterKind, img: Image, mask: bv32): (s: seq<FilteredPixel>)
    requires img.Valid()
    ensures |s| == img.width * img.height
  {
    ScoresUpTo(kind, img, mask, img.width * img.height)
  }

  /** Entry k of the list is the scored pixel generateList stores at index k. */
  lemma {:induction false} ScoresAt(kind: FilterKind, img: Image, mask: bv32, n: nat, k: int)
    requires img.Valid() && n <= img.width * img.height && 0 <= k < n
    ensures ScoresUpTo(kind, img, mask, n)[k] == Entry(kind, img, mask, k)
  {
    if k < n - 1 {
      ScoresAt(kind, img, mask, n - 1, k);
    }
  }

  /** The picker's list: the scored pixels in ascending comparator order. */
  function Ranking(kind: FilterKind, img: Image, end: int): seq<FilteredPixel>
    requires img.Valid()
  {
    SortSeq(Scores(kind, img, PickerMask(end)))
  }

  /** Every entry names a pixel of the image. */
  ghost predicate PositionsIn(s: seq<FilteredPixel>, img: Image)
  {
    forall i :: 0 <= i < |s| ==> img.InBounds(s[i].x, s[i].y)
  }

  /** The two entries name different pixels. */
  predicate Apart(p: FilteredPixel, q: FilteredPixel)
  {
    p.x != q.x || p.y != q.y
  }

  /** No pixel appears twice. */
  ghost predicate DistinctPositions(s: seq<FilteredPixel>)
  {
    forall i, j {:trigger Apart(s[i], s[j])} :: 0 <= i < |s| && 0 <= j < |s| && i != j ==> Apart(s[i], s[j])
  }

  lemma {:induction false} EntryBounds(img: Image, k: int)
    requires img.Valid() && 0 <= k < img.width * img.height
    ensures 0 <= k / img.height < img.width && 0 <= k % img.height < img.height
    ensures k == img.height * (k / img.height) + k % img.height
  {
    BlindHide.DivModFacts(k, img.height);
    BlindHide.QuotNonNegative(k, img.height);
    BlindHide.QuotBound(k, img.height, img.width);
  }

  /** The index generateList's loops compute for pixel (i, j). */
  lemma {:induction false} ColumnMajor(i: int, j: int, width: int, height: int)
    requires 0 <= i < width && 0 <= j < height
    ensures 0 <= i * height + j < width * height
    ensures (i * height + j) / height == i && (i * height + j) % height == j
  {
    ModOfDecomposition(i * height + j, height, i, j);
    MulGap(height, i, width);
  }

  lemma {:induction false} AreaPositive(img: Image)
    requires img.Valid()
    ensures img.width * img.height >= 1
  {
    BlindHide.MulMono(img.height, 1, img.width);
  }

  /**
   * A list a picker can work on for this image: one entry per pixel, each
   * naming a pixel of the image, and no pixel twice.
   */
  ghost predicate ListOf(ranking: seq<FilteredPixel>, img: Image)
  {
    img.Valid() && |ranking| == img.width * img.height && |ranking| >= 1 &&
    PositionsIn(ranking, img) && DistinctPositions(ranking)
  }

  /** Entry k names pixel (k / H, k % H): the order generateList's loops store the pixels in. */
  ghost predicate ColumnMajorOrder(s: seq<FilteredPixel>, img: Image)
  {
    img.Valid() && |s| == img.width * img.height &&
    forall k :: 0 <= k < |s| ==> s[k].x == k / img.height && s[k].y == k % img.height
  }

  lemma {:induction false} ScoresOrder(kind: FilterKind, img: Image, mask: bv32)
    requires img.Valid()
    ensures ColumnMajorOrder(Scores(kind, img, mask), img)
  {
    forall k | 0 <= k < img.width * img.height
      ensures Scores(kind, img, mask)[k].x == k / img.height && Scores(kind, img, mask)[k].y == k % img.height
    {
      ScoresPosition(kind, img, mask, k);
    }
  }

  /** Entry k of the list names pixel (k / H, k % H). */
  lemma {:induction false} ScoresPosition(kind: FilterKind, img: Image, mask: bv32, k: int)
    requires img.Valid() && 0 <= k < img.width * img.height
    ensures Scores(kind, img, mask)[k].x == k / img.height && Scores(kind, img, mask)[k].y == k % img.height
  {
    ScoresAt(kind, img, mask, img.width * img.height, k);
    EntryIs(kind, img, mask, k);
  }

  /** Column-major order names every pixel of the image once. */
  lemma {:induction false} ColumnMajorDistinct(s: seq<FilteredPixel>, img: Image)
    requires ColumnMajorOrder(s, img)
    ensures PositionsIn(s, img) && DistinctPositions(s)
  {
    forall i | 0 <= i < |s|
      ensures img.InBounds(s[i].x, s[i].y)
    {
      EntryBounds(img, i);
    }
    forall i, j | 0 <= i < |s| && 0 <= j < |s| && i != j
      ensures Apart(s[i], s[j])
    {
      EntryBounds(img, i);
      EntryBounds(img, j);
    }
  }

  /** Pixel (x, y) sits at index x * H + y of a column-major list, so any permutation of it holds the pixel. */
  lemma {:induction false} ColumnMajorCovers(s: seq<FilteredPixel>, r: seq<FilteredPixel>, img: Image, x: int, y: int)
    requires ColumnMajorOrder(s, img) && multiset(s) == multiset(r) && img.InBounds(x, y)
    ensures exists i :: 0 <= i < |r| && r[i].x == x && r[i].y == y
  {
    ColumnMajor(x, y, img.width, img.height);
    var k := x * img.height + y;
    assert s[k] in multiset(s);
    var i :| 0 <= i < |r| && r[i] == s[k];
    assert r[i].x == x && r[i].y == y;
  }

  /**
   * The list holds every pixel of the image exactly once: W * H entries, at
   * distinct positions, and each pixel somewhere among them.
   */
  lemma {:induction false} RankingCoversImage(kind: FilterKind, img: Image, end: int, x: int, y: int)
    requires img.Valid() && img.InBounds(x, y)
    ensures ListOf(Ranking(kind, img, end), img)
    ensures exists i :: 0 <= i < |Ranking(kind, img, end)| &&
                        Ranking(kind, img, end)[i].x == x && Ranking(kind, img, end)[i].y == y
  {
    var s := Scores(kind, img, PickerMask(end));
    RankingFacts(kind, img, end);
    ScoresOrder(kind, img, PickerMask(end));
    ColumnMajorCovers(s, Ranking(kind, img, end), img, x, y);
  }

  /** The list is sorted ascending by the comparator. */
  lemma {:induction false} RankingSorted(kind: FilterKind, img: Image, end: int)
    requires img.Valid()
    ensures Sorted(Ranking(kind, img, end))
  {
    SortSeqSorted(Scores(kind, img, PickerMask(end)));
  }

  lemma {:induction false} RankingFacts(kind: FilterKind, img: Image, end: int)
    requires img.Valid()
    ensures ListOf(Ranking(kind, img, end), img)
  {
    AreaPositive(img);
    var s := Scores(kind, img, PickerMask(end));
    ScoresOrder(kind, img, PickerMask(end));
    ColumnMajorDistinct(s, img);
    PermutedPositions(s, Ranking(kind, img, end), img);
  }

  /** Sorting moves entries but keeps the set of positions and their distinctness. */
  lemma {:induction false} PermutedPositions(s: seq<FilteredPixel>, r: seq<FilteredPixel>, img: Image)
    requires multiset(s) == multiset(r) && PositionsIn(s, img) && DistinctPositions(s)
    ensures PositionsIn(r, img) && DistinctPositions(r)
  {
    forall i | 0 <= i < |r|
      ensures exists k :: 0 <= k < |s| && s[k] == r[i]
    {
      assert r[i] in multiset(r);
      assert r[i] in multiset(s);
    }
    forall i, j | 0 <= i < |r| && 0 <= j < |r| && i != j
      ensures Apart(r[i], r[j])
    {
      var a :| 0 <= a < |s| && s[a] == r[i];
      var b :| 0 <= b < |s| && s[b] == r[j];
      if !Apart(r[i], r[j]) {
        assert a == b;
        CountAtMostOne(s, r[i]);
        if i < j {
          TwoCopies(r, i, j);
        } else {
          TwoCopies(r, j, i);
        }
        assert false;
      }
    }
  }

  lemma {:induction false} CountAtMostOne(s: seq<FilteredPixel>, e: FilteredPixel)
    requires DistinctPositions(s)
    ensures multiset(s)[e] <= 1
    decreases |s|
  {
    if s != [] {
      var n := |s| - 1;
      assert s == s[..n] + [s[n]];
      assert DistinctPositions(s[..n]);
      CountAtMostOne(s[..n], e);
      if e == s[n] {
        assert e !in s[..n] by {
          forall k | 0 <= k < n
            ensures s[..n][k] != e
          {
            assert Apart(s[k], s[n]);
          }
        }
        assert multiset(s[..n])[e] == 0;
      }
    }
  }

  lemma {:induction false} TwoCopies(r: seq<FilteredPixel>, i: int, j: int)
    requires 0 <= i < j < |r| && r[i] == r[j]
    ensures multiset(r)[r[i]] >= 2
  {
    assert r == r[..j] + [r[j]] + r[j + 1..];
    assert r[..j][i] == r[i];
    assert r[i] in multiset(r[..j]);
  }

  // ----- getShot: the counter and the shots it names -----

  /**
   * getShot for counter value c: the remainder r of c by 3 * bpp picks bit
   * r % bpp of layer r / bpp, and the quotient, taken modulo the list length,
   * picks the pixel. Java's `%` truncates; `c - r` is a multiple of 3 * bpp,
   * so its division is exact and Dafny's `/` gives the same quotient. A
   * negative position is an array-index exception.
   */
  function PickAt(ranking: seq<FilteredPixel>, c: int, bpp: int): (r: Result<Shot>)
    requires |ranking| >= 1 && bpp >= 1
    ensures r.Failure? ==> r.error == Crash
  {
    var m := bpp * 3;
    var rangeUpTo := JavaRem(c, m);
    var arrayPos := JavaRem((c - rangeUpTo) / m, |ranking|);
    if arrayPos < 0 then Failure(Crash)
    else
      var fp := ranking[arrayPos];
      var bit := JavaRem(rangeUpTo, bpp);
      Success(Shot(fp.x, fp.y, bit, (rangeUpTo - bit) / bpp))
  }

  /** Call number i of getShot on a picker whose counter started at n0: the counter was decremented i times. */
  function Call(ranking: seq<FilteredPixel>, n0: int, bpp: int, i: nat): Result<Shot>
    requires |ranking| >= 1 && bpp >= 1
  {
    PickAt(ranking, I32(n0 - i), bpp)
  }

  /** The shots of the first n calls of getShot, or the exception one of them raises. */
  function Picks(ranking: seq<FilteredPixel>, n0: int, bpp: int, n: nat): (r: Result<seq<Shot>>)
    requires |ranking| >= 1 && bpp >= 1
    ensures r.Success? ==> |r.value| == n
    ensures r.Failure? ==> r.error == Crash
  {
    if n == 0 then Success([])
    else
      match Picks(ranking, n0, bpp, n - 1)
      case Failure(e) => Failure(e)
      case Success(s) =>
        match Call(ranking, n0, bpp, n - 1)
        case Failure(e) => Failure(e)
        case Success(sh) => Success(s + [sh])
  }

  /** The counter the picker starts from: `H * W * bpp * 3` in int arithmetic. */
  function StartCount(img: Image, bpp: int): int
  {
    I32(I32(I32(img.height * img.width) * bpp) * 3)
  }

  /** The first n shots of a picker over `ranking` that a FilterFirst with this range builds for an image. */
  function ListShots(ranking: seq<FilteredPixel>, img: Image, start: int, end: int, n: nat): Result<seq<Shot>>
    requires |ranking| >= 1 && ValidRange(start, end)
  {
    var bpp := BitsPerPixel(start, end);
    Picks(ranking, StartCount(img, bpp), bpp, n)
  }

  /** One decrement of the counter, wrapping like a Java int. */
  lemma {:induction false} Decrement(n0: int, i: nat)
    ensures I32(I32(n0 - i) - 1) == I32(n0 - (i + 1))
  {
    var k := I32Offset(n0 - i);
    I32Congruent(n0 - (i + 1), I32(n0 - i) - 1, k);
  }

  lemma {:induction false} PicksSnoc(ranking: seq<FilteredPixel>, n0: int, bpp: int, shots: seq<Shot>, s: Shot)
    requires |ranking| >= 1 && bpp >= 1
    requires Picks(ranking, n0, bpp, |shots|) == Success(shots)
    requires Call(ranking, n0, bpp, |shots|) == Success(s)
    ensures Picks(ranking, n0, bpp, |shots| + 1) == Success(shots + [s])
  {
  }

  /** A failing call makes every longer run fail. */
  lemma {:induction false} PicksFailFrom(ranking: seq<FilteredPixel>, n0: int, bpp: int, k: nat, n: nat)
    requires |ranking| >= 1 && bpp >= 1 && k <= n && Picks(ranking, n0, bpp, k).Failure?
    ensures Picks(ranking, n0, bpp, n) == Failure(Crash)
    decreases n
  {
    if k < n {
      PicksFailFrom(ranking, n0, bpp, k, n - 1);
    }
  }

  /** The first m shots of a longer run are the run of the first m calls. */
  lemma {:induction false} PicksPrefix(ranking: seq<FilteredPixel>, n0: int, bpp: int, m: nat, n: nat)
    requires |ranking| >= 1 && bpp >= 1 && m <= n && Picks(ranking, n0, bpp, n).Success?
    ensures Picks(ranking, n0, bpp, m) == Success(Picks(ranking, n0, bpp, n).value[..m])
    decreases n
  {
    if m < n {
      PicksPrefix(ranking, n0, bpp, m, n - 1);
      var s := Picks(ranking, n0, bpp, n - 1).value;
      assert Picks(ranking, n0, bpp, n).value[..n - 1] == s;
      assert s[..m] == Picks(ranking, n0, bpp, n).value[..m];
    } else {
      assert Picks(ranking, n0, bpp, n).value[..m] == Picks(ranking, n0, bpp, n).value;
    }
  }

  /** When none of the first n calls fails, the run has call i's shot at index i. */
  lemma {:induction false} PicksAll(ranking: seq<FilteredPixel>, n0: int, bpp: int, n: nat)
    requires |ranking| >= 1 && bpp >= 1
    requires forall i: nat :: i < n ==> Call(ranking, n0, bpp, i).Success?
    ensures Picks(ranking, n0, bpp, n).Success?
    ensures forall i :: 0 <= i < n ==> Success(Picks(ranking, n0, bpp, n).value[i]) == Call(ranking, n0, bpp, i)
    decreases n
  {
    if n > 0 {
      PicksAll(ranking, n0, bpp, n - 1);
      assert Call(ranking, n0, bpp, n - 1).Success?;
    }
  }

  /**
   * A counter between 0 and the address count: the remainder by 3 * bpp
   * spells the layer and bit, the quotient is the list index; all of
   * Java's truncating arithmetic is plain division there.
   */
  lemma {:induction false} PickAtNonNegative(ranking: seq<FilteredPixel>, c: int, bpp: int)
    requires |ranking| >= 1 && bpp >= 1 && 0 <= c < |ranking| * (bpp * 3)
    ensures var m := bpp * 3;
            var q := c / m;
            var layer := (c % m) / bpp;
            var bit := (c % m) % bpp;
            0 <= q < |ranking| && 0 <= layer < 3 && 0 <= bit < bpp &&
            c == m * q + (bpp * layer + bit) &&
            PickAt(ranking, c, bpp) == Success(Shot(ranking[q].x, ranking[q].y, bit, layer))
  {
    var m := bpp * 3;
    var len := |ranking|;
    BlindHide.DivModFacts(c, m);
    BlindHide.SubDiv(c, m);
    BlindHide.QuotNonNegative(c, m);
    BlindHide.QuotBound(c, m, len);
    var q := c / m;
    ModOfDecomposition(q, len, 0, q);
    var r := c % m;
    BlindHide.DivModFacts(r, bpp);
    BlindHide.SubDiv(r, bpp);
    BlindHide.QuotNonNegative(r, bpp);
    BlindHide.QuotBound(r, bpp, 3);
  }

  /** The counter value W * H * 3 * bpp names the same bit as 0: one past the last address wraps to the first. */
  lemma {:induction false} PickAtTop(ranking: seq<FilteredPixel>, bpp: int)
    requires |ranking| >= 1 && bpp >= 1
    ensures PickAt(ranking, |ranking| * (bpp * 3), bpp) == PickAt(ranking, 0, bpp)
    ensures PickAt(ranking, 0, bpp) == Success(Shot(ranking[0].x, ranking[0].y, 0, 0))
  {
    var m := bpp * 3;
    var len := |ranking|;
    ModOfDecomposition(len * m, m, len, 0);
    ModOfDecomposition(len, len, 1, 0);
    ModOfDecomposition(0, m, 0, 0);
    ModOfDecomposition(0, len, 0, 0);
    ModOfDecomposition(0, bpp, 0, 0);
  }

  /** Below the address count, distinct counter values name distinct bits of the image. */
  lemma {:induction false} PickAtInjective(ranking: seq<FilteredPixel>, bpp: int, c1: int, c2: int)
    requires |ranking| >= 1 && 1 <= bpp <= 7 && DistinctPositions(ranking)
    requires 0 <= c1 < |ranking| * (bpp * 3) && 0 <= c2 < |ranking| * (bpp * 3) && c1 != c2
    ensures PickAt(ranking, c1, bpp).Success? && PickAt(ranking, c2, bpp).Success?
    ensures Addr(PickAt(ranking, c1, bpp).value) != Addr(PickAt(ranking, c2, bpp).value)
  {
    PickAtNonNegative(ranking, c1, bpp);
    PickAtNonNegative(ranking, c2, bpp);
    var s1 := PickAt(ranking, c1, bpp).value;
    var s2 := PickAt(ranking, c2, bpp).value;
    if Addr(s1) == Addr(s2) {
      var m := bpp * 3;
      ghost var apart := Apart(ranking[c1 / m], ranking[c2 / m]);
      assert c1 / m == c2 / m;
      LayerPosInjective(s1.layer, s1.bitPos, s2.layer, s2.bitPos);
      assert false;
    }
  }

  /**
   * The counter starts at N = W * H * 3 * bpp, so call 0 names what counter
   * value 0 names and call i, for 0 < i < N, what N - i names.
   */
  lemma {:induction false} CallInRange(ranking: seq<FilteredPixel>, bpp: int, i: nat)
    requires |ranking| >= 1 && bpp >= 1
    requires |ranking| * (bpp * 3) < TWO_31 && i < |ranking| * (bpp * 3)
    ensures Call(ranking, |ranking| * (bpp * 3), bpp, i) ==
            PickAt(ranking, if i == 0 then 0 else |ranking| * (bpp * 3) - i, bpp)
  {
    var n := |ranking| * (bpp * 3);
    assert I32(n - i) == n - i;
    if i == 0 {
      PickAtTop(ranking, bpp);
    }
  }

  /**
   * The shot order: the first call takes bit 0 of layer 0 of the lowest-scored
   * pixel; the second takes the top bit of layer 2 of the highest-scored pixel,
   * and from there the calls walk down the list.
   */
  lemma {:induction false} FirstShots(ranking: seq<FilteredPixel>, bpp: int)
    requires |ranking| >= 1 && bpp >= 1 && |ranking| * (bpp * 3) < TWO_31
    ensures Call(ranking, |ranking| * (bpp * 3), bpp, 0) == Success(Shot(ranking[0].x, ranking[0].y, 0, 0))
    ensures Call(ranking, |ranking| * (bpp * 3), bpp, 1) ==
            Success(Shot(ranking[|ranking| - 1].x, ranking[|ranking| - 1].y, bpp - 1, 2))
  {
    CallInRange(ranking, bpp, 0);
    PickAtTop(ranking, bpp);
    BlindHide.MulMono(bpp * 3, 1, |ranking|);
    CallInRange(ranking, bpp, 1);
    LastAddress(ranking, bpp);
  }

  /** The highest address names the top bit of layer 2 of the last pixel of the list. */
  lemma {:induction false} LastAddress(ranking: seq<FilteredPixel>, bpp: int)
    requires |ranking| >= 1 && bpp >= 1
    ensures PickAt(ranking, |ranking| * (bpp * 3) - 1, bpp) ==
            Success(Shot(ranking[|ranking| - 1].x, ranking[|ranking| - 1].y, bpp - 1, 2))
  {
    var m := bpp * 3;
    var len := |ranking|;
    LastDecomposition(len, bpp);
    PickAtNonNegative(ranking, len * m - 1, bpp);
  }

  /** The last counter value below len * bpp * 3 splits into pixel len - 1, layer 2, bit bpp - 1. */
  lemma {:induction false} LastDecomposition(len: int, bpp: int)
    requires len >= 1 && bpp >= 1
    ensures var m := bpp * 3;
            var c := len * m - 1;
            c / m == len - 1 && (c % m) / bpp == 2 && (c % m) % bpp == bpp - 1
  {
    var m := bpp * 3;
    var c := len * m - 1;
    assert c == m * (len - 1) + (m - 1);
    ModOfDecomposition(c, m, len - 1, m - 1);
    ModOfDecomposition(m - 1, bpp, 2, bpp - 1);
  }

  /** Calling once more than there are addresses repeats the first shot. */
  lemma {:induction false} CallWrapsAround(ranking: seq<FilteredPixel>, bpp: int)
    requires |ranking| >= 1 && bpp >= 1 && |ranking| * (bpp * 3) < TWO_31
    ensures Call(ranking, |ranking| * (bpp * 3), bpp, |ranking| * (bpp * 3)) ==
            Call(ranking, |ranking| * (bpp * 3), bpp, 0)
  {
    CallInRange(ranking, bpp, 0);
    PickAtTop(ranking, bpp);
  }

  /** The bits encode may write: colour layers 0..2, bit positions 0..top. */
  ghost predicate LowBits(shots: seq<Shot>, top: int)
  {
    forall i :: 0 <= i < |shots| ==> 0 <= shots[i].layer < 3 && 0 <= shots[i].bitPos <= top
  }

  /**
   * Up to W * H * 3 * bpp calls on a list of the image's pixels, each pixel
   * once: no call fails, every shot is in the image, uses a colour layer and
   * a bit below bpp, and no two shots name the same bit.
   */
  lemma {:induction false} PicksUsable(ranking: seq<FilteredPixel>, img: Image, bpp: int, n: nat)
    requires img.Valid() && |ranking| >= 1 && 1 <= bpp <= 7
    requires PositionsIn(ranking, img) && DistinctPositions(ranking)
    requires |ranking| * (bpp * 3) < TWO_31 && n <= |ranking| * (bpp * 3)
    ensures Picks(ranking, |ranking| * (bpp * 3), bpp, n).Success?
    ensures AllInBounds(img, Picks(ranking, |ranking| * (bpp * 3), bpp, n).value)
    ensures DistinctAddresses(Picks(ranking, |ranking| * (bpp * 3), bpp, n).value)
    ensures LowBits(Picks(ranking, |ranking| * (bpp * 3), bpp, n).value, bpp - 1)
  {
    var top := |ranking| * (bpp * 3);
    forall i: nat | i < n
      ensures Call(ranking, top, bpp, i).Success?
    {
      CallUsable(ranking, img, bpp, top, i);
    }
    PicksAll(ranking, top, bpp, n);
    var shots := Picks(ranking, top, bpp, n).value;
    forall i | 0 <= i < n
      ensures img.InBounds(shots[i].x, shots[i].y) && 0 <= shots[i].layer < 3 && 0 <= shots[i].bitPos < bpp
    {
      CallUsable(ranking, img, bpp, top, i);
      assert Success(shots[i]) == Call(ranking, top, bpp, i);
    }
    forall i, j | 0 <= i < j < n
      ensures Addr(shots[i]) != Addr(shots[j])
    {
      CallsApart(ranking, bpp, top, i, j);
      assert Success(shots[i]) == Call(ranking, top, bpp, i);
      assert Success(shots[j]) == Call(ranking, top, bpp, j);
    }
  }

  /** Below the limit, call i succeeds with a shot inside the image, on a colour layer, below bpp. */
  lemma {:induction false} CallUsable(ranking: seq<FilteredPixel>, img: Image, bpp: int, top: int, i: nat)
    requires img.Valid() && |ranking| >= 1 && 1 <= bpp <= 7 && PositionsIn(ranking, img)
    requires top == |ranking| * (bpp * 3) && top < TWO_31 && i < top
    ensures Call(ranking, top, bpp, i).Success?
    ensures var s := Call(ranking, top, bpp, i).value;
            img.InBounds(s.x, s.y) && 0 <= s.layer < 3 && 0 <= s.bitPos < bpp
  {
    CallInRange(ranking, bpp, i);
    PickAtNonNegative(ranking, if i == 0 then 0 else top - i, bpp);
  }

  /** Below the limit, two different calls name two different bits. */
  lemma {:induction false} CallsApart(ranking: seq<FilteredPixel>, bpp: int, top: int, i: nat, j: nat)
    requires |ranking| >= 1 && 1 <= bpp <= 7 && DistinctPositions(ranking)
    requires top == |ranking| * (bpp * 3) && top < TWO_31 && i < j < top
    ensures Call(ranking, top, bpp, i).Success? && Call(ranking, top, bpp, j).Success?
    ensures Addr(Call(ranking, top, bpp, i).value) != Addr(Call(ranking, top, bpp, j).value)
  {
    var ci, cj := if i == 0 then 0 else top - i, top - j;
    CallInRange(ranking, bpp, i);
    CallInRange(ranking, bpp, j);
    assert Call(ranking, top, bpp, i) == PickAt(ranking, ci, bpp);
    assert Call(ranking, top, bpp, j) == PickAt(ranking, cj, bpp);
    PickAtInjective(ranking, bpp, ci, cj);
  }

  /** Below the limit, the start count is the address count of the list. */
  lemma {:induction false} StartCountExact(img: Image, bpp: int)
    requires img.Valid() && bpp >= 1 && BlindHide.Addresses(img.width, img.height, bpp) < TWO_31
    ensures StartCount(img, bpp) == BlindHide.Addresses(img.width, img.height, bpp)
    ensures StartCount(img, bpp) == (img.width * img.height) * (bpp * 3)
    ensures img.width * img.height <= StartCount(img, bpp)
  {
    BlindHide.NoOverflowLimit(img.width, img.height, bpp);
    AddressProduct(img.width, img.height, bpp);
  }

  /** The address count, regrouped as pixels times addresses per pixel, is at least the pixel count. */
  lemma {:induction false} AddressProduct(w: int, h: int, bpp: int)
    requires w >= 1 && h >= 1 && bpp >= 1
    ensures BlindHide.Addresses(w, h, bpp) == (w * h) * (bpp * 3)
    ensures w * h <= (w * h) * (bpp * 3)
  {
    var a := w * h;
    assert h * w == a;
    assert a * bpp * 3 == a * (bpp * 3);
    BlindHide.MulMono(a, 1, bpp * 3);
  }

  /** The picker of a fitting image: no call of a run the fit test allows fails, and the run is usable. */
  lemma {:induction false} PickerUsable(ranking: seq<FilteredPixel>, img: Image, start: int, end: int, n: nat)
    requires ListOf(ranking, img) && ValidRange(start, end)
    requires BlindHide.Addresses(img.width, img.height, BitsPerPixel(start, end)) < TWO_31
    requires n <= BlindHide.Addresses(img.width, img.height, BitsPerPixel(start, end))
    ensures ListShots(ranking, img, start, end, n).Success?
    ensures AllInBounds(img, ListShots(ranking, img, start, end, n).value)
    ensures DistinctAddresses(ListShots(ranking, img, start, end, n).value)
    ensures LowBits(ListShots(ranking, img, start, end, n).value, end)
  {
    var bpp := BitsPerPixel(start, end);
    StartCountExact(img, bpp);
    PicksUsable(ranking, img, bpp, n);
  }

  // ----- the filter cannot see what encode writes -----

  /**
   * Writing in layers 0..2 at bit positions up to `end` keeps every score,
   * so the stego image ranks its pixels exactly as the cover did.
   */
  lemma {:induction false} RankingSurvivesWrites(kind: FilterKind, img: Image, shots: seq<Shot>, bits: seq<bool>, end: int)
    requires img.Valid() && |shots| == |bits| && AllInBounds(img, shots) && 0 <= end <= 6
    requires LowBits(shots, end)
    ensures WriteBits(img, shots, bits).Success?
    ensures Ranking(kind, WriteBits(img, shots, bits).value, end) == Ranking(kind, img, end)
  {
    ScoresSurviveWrites(kind, img, shots, bits, end);
  }

  /** Writing in layers 0..2 at bit positions up to `end` keeps every pixel's score under the picker's mask. */
  lemma {:induction false} ScoresSurviveWrites(kind: FilterKind, img: Image, shots: seq<Shot>, bits: seq<bool>, end: int)
    requires img.Valid() && |shots| == |bits| && AllInBounds(img, shots) && 0 <= end <= 6
    requires LowBits(shots, end)
    ensures WriteBits(img, shots, bits).Success?
    ensures Scores(kind, WriteBits(img, shots, bits).value, PickerMask(end)) == Scores(kind, img, PickerMask(end))
  {
    var w := WriteBits(img, shots, bits).value;
    var mask := PickerMask(end);
    var n := img.width * img.height;
    forall k | 0 <= k < n
      ensures Scores(kind, w, mask)[k] == Scores(kind, img, mask)[k]
    {
      ScoresAt(kind, w, mask, n, k);
      ScoresAt(kind, img, mask, n, k);
      EntryBounds(img, k);
      WritesKeepFilterValue(kind, img, shots, bits, end, k / img.height, k % img.height);
    }
    assert Scores(kind, w, mask) == Scores(kind, img, mask);
  }

  // ----- what encode, decode and the simulation compute -----

  /**
   * encode: refuse a message that does not fit; otherwise build the picker
   * on the cover and write the 32-bit size header and then the message bits
   * still to be delivered, one shot each.
   */
  function EncodeOn(ranking: seq<FilteredPixel>, img: Image, file: seq<Byte>, delivered: nat, start: int, end: int)
    : Result<StegoImage>
    requires img.Valid() && ValidRange(start, end) && delivered <= 8 * |file| && |ranking| >= 1
  {
    var bpp := BitsPerPixel(start, end);
    if !WillMessageFit(|file|, img.width, img.height, Layers(img), bpp) then Failure(IllegalArgument)
    else
      var bits := EncodedBits(file, delivered);
      match ListShots(ranking, img, start, end, |bits|)
      case Failure(e) => Failure(e)
      case Success(shots) =>
        match WriteBits(img, shots, bits)
        case Failure(e) => Failure(e)
        case Success(w) => Success(StegoImage(w))
  }

  /**
   * decode: build the picker on the stego image, read 32 header bits, turn
   * the size into a bit count, reject an implausible count, read that many
   * further bits and pack them into bytes.
   */
  function DecodeOn(ranking: seq<FilteredPixel>, s: StegoImage, start: int, end: int): Result<seq<Byte>>
    requires s.Valid() && ValidRange(start, end) && |ranking| >= 1
  {
    var img := s.image;
    var bpp := BitsPerPixel(start, end);
    match ListShots(ranking, img, start, end, 32)
    case Failure(e) => Failure(e)
    case Success(hs) =>
      match ReadBits(img, hs)
      case Failure(e) => Failure(e)
      case Success(header) =>
        var length := BodyLength(HeaderValue(header));
        if Implausible(length, ImageSpace(img.width, img.height, GetLayerCount(s), bpp)) then
          Failure(NoMessage)
        else
          match ListShots(ranking, img, start, end, 32 + length)
          case Failure(e) => Failure(e)
          case Success(all) =>
            match ReadBits(img, all[32..])
            case Failure(e) => Failure(e)
            case Success(body) => Success(Pack(body))
  }

  /**
   * outputSimulation: refuse a message that does not fit; otherwise build the
   * picker on the cover, black the image out and lighten the pixel of every
   * shot encode would make.
   */
  function SimulationOn(ranking: seq<FilteredPixel>, img: Image, size: nat, delivered: nat, start: int, end: int)
    : Result<Image>
    requires img.Valid() && ValidRange(start, end) && delivered <= 8 * size && |ranking| >= 1
  {
    var bpp := BitsPerPixel(start, end);
    if !WillMessageFit(size, img.width, img.height, Layers(img), bpp) then Failure(IllegalArgument)
    else
      match ListShots(ranking, img, start, end, 32 + (8 * size - delivered))
      case Failure(e) => Failure(e)
      case Success(shots) => Mark(Blacken(img), shots)
  }

  /** encode, with the picker this algorithm builds on the cover. */
  function EncodeSpec(kind: FilterKind, img: Image, file: seq<Byte>, delivered: nat, start: int, end: int)
    : Result<StegoImage>
    requires img.Valid() && ValidRange(start, end) && delivered <= 8 * |file|
  {
    RankingFacts(kind, img, end);
    EncodeOn(Ranking(kind, img, end), img, file, delivered, start, end)
  }

  /** decode, with the picker this algorithm builds on the stego image. */
  function DecodeSpec(kind: FilterKind, s: StegoImage, start: int, end: int): Result<seq<Byte>>
    requires s.Valid() && ValidRange(start, end)
  {
    RankingFacts(kind, s.image, end);
    DecodeOn(Ranking(kind, s.image, end), s, start, end)
  }

  /** outputSimulation, with the picker this algorithm builds on the cover. */
  function SimulationSpec(kind: FilterKind, img: Image, size: nat, delivered: nat, start: int, end: int)
    : Result<Image>
    requires img.Valid() && ValidRange(start, end) && delivered <= 8 * size
  {
    RankingFacts(kind, img, end);
    SimulationOn(Ranking(kind, img, end), img, size, delivered, start, end)
  }

  /** The simulation fails exactly when encode does, and for the same reason. */
  lemma {:induction false} SimulationMatchesEncode(ranking: seq<FilteredPixel>, img: Image, file: seq<Byte>, delivered: nat,
                                start: int, end: int)
    requires img.Valid() && ValidRange(start, end) && delivered <= 8 * |file| && |ranking| >= 1
    ensures SimulationOn(ranking, img, |file|, delivered, start, end).Success? <==>
            EncodeOn(ranking, img, file, delivered, start, end).Success?
    ensures SimulationOn(ranking, img, |file|, delivered, start, end).Failure? ==>
            SimulationOn(ranking, img, |file|, delivered, start, end).error ==
            EncodeOn(ranking, img, file, delivered, start, end).error
  {
    EncodeOnOutcome(ranking, img, file, delivered, start, end);
    SimulationOnOutcome(ranking, img, |file|, delivered, start, end);
  }

  /**
   * What encode and its simulation both come to: the fit test's
   * IllegalArgument, the picker's exception, a crash on a shot outside the
   * image, or the shots.
   */
  ghost function ShotsOutcome(ranking: seq<FilteredPixel>, img: Image, size: nat, delivered: nat, start: int, end: int)
    : Result<seq<Shot>>
    requires img.Valid() && ValidRange(start, end) && delivered <= 8 * size && |ranking| >= 1
  {
    if !WillMessageFit(size, img.width, img.height, Layers(img), BitsPerPixel(start, end)) then Failure(IllegalArgument)
    else
      match ListShots(ranking, img, start, end, 32 + (8 * size - delivered))
      case Failure(e) => Failure(e)
      case Success(shots) => if AllInBounds(img, shots) then Success(shots) else Failure(Crash)
  }

  /** encode succeeds exactly when ShotsOutcome does, and fails with its error. */
  lemma {:induction false} EncodeOnOutcome(ranking: seq<FilteredPixel>, img: Image, file: seq<Byte>, delivered: nat,
                                         start: int, end: int)
    requires img.Valid() && ValidRange(start, end) && delivered <= 8 * |file| && |ranking| >= 1
    ensures EncodeOn(ranking, img, file, delivered, start, end).Success? <==> ShotsOutcome(ranking, img, |file|, delivered, start, end).Success?
    ensures EncodeOn(ranking, img, file, delivered, start, end).Failure? ==>
            EncodeOn(ranking, img, file, delivered, start, end).error == ShotsOutcome(ranking, img, |file|, delivered, start, end).error
  {
    assert |EncodedBits(file, delivered)| == 32 + (8 * |file| - delivered);
  }

  /** The simulation succeeds exactly when ShotsOutcome does, and fails with its error. */
  lemma {:induction false} SimulationOnOutcome(ranking: seq<FilteredPixel>, img: Image, size: nat, delivered: nat,
                                             start: int, end: int)
    requires img.Valid() && ValidRange(start, end) && delivered <= 8 * size && |ranking| >= 1
    ensures SimulationOn(ranking, img, size, delivered, start, end).Success? <==> ShotsOutcome(ranking, img, size, delivered, start, end).Success?
    ensures SimulationOn(ranking, img, size, delivered, start, end).Failure? ==>
            SimulationOn(ranking, img, size, delivered, start, end).error == ShotsOutcome(ranking, img, size, delivered, start, end).error
  {
    var p := ListShots(ranking, img, start, end, 32 + (8 * size - delivered));
    if p.Success? {
      BlackenBounds(img, p.value);
    }
  }

  /** What the simulation shows: a pixel is lit exactly when one of encode's shots lands on it. */
  lemma {:induction false} SimulationShowsShots(ranking: seq<FilteredPixel>, img: Image, size: nat, start: int, end: int, x: int, y: int)
    requires img.Valid() && ValidRange(start, end) && img.InBounds(x, y) && |ranking| >= 1
    requires SimulationOn(ranking, img, size, 0, start, end).Success?
    ensures ListShots(ranking, img, start, end, 32 + 8 * size).Success?
    ensures SimulationOn(ranking, img, size, 0, start, end).value.RGB(x, y) != 0 <==>
            Hits(ListShots(ranking, img, start, end, 32 + 8 * size).value, x, y)
  {
    var shots := ListShots(ranking, img, start, end, 32 + 8 * size).value;
    MarkHits(Blacken(img), shots, x, y);
  }

  // ----- the round trip -----

  /**
   * The round trip: when the message fits and the image's address count does
   * not overflow an int, decoding the encoded image gives back the message,
   * with either filter.
   */
  lemma {:induction false} EncodeDecode(kind: FilterKind, img: Image, file: seq<Byte>, start: int, end: int)
    requires img.Valid() && ValidRange(start, end)
    requires 8 * |file| + 50 < TWO_31
    requires BlindHide.Addresses(img.width, img.height, BitsPerPixel(start, end)) < TWO_31
    requires WillMessageFit(|file|, img.width, img.height, Layers(img), BitsPerPixel(start, end))
    ensures EncodeSpec(kind, img, file, 0, start, end).Success?
    ensures DecodeSpec(kind, EncodeSpec(kind, img, file, 0, start, end).value, start, end) == Success(file)
  {
    var ranking := Ranking(kind, img, end);
    RankingFacts(kind, img, end);
    var shots, out := EncodeWrites(ranking, img, file, start, end);
    RankingSurvivesWrites(kind, img, shots, HeaderBits(I32(|file|)) + MessageBits(file), end);
    DecodeOfWritten(ranking, img, out, file, start, end, shots);
  }

  /** Encoding a fitting message writes its header and bits at the picker's first shots. */
  lemma {:induction false} EncodeWrites(ranking: seq<FilteredPixel>, img: Image, file: seq<Byte>, start: int, end: int)
    returns (shots: seq<Shot>, out: Image)
    requires ListOf(ranking, img) && ValidRange(start, end)
    requires 8 * |file| + 50 < TWO_31
    requires BlindHide.Addresses(img.width, img.height, BitsPerPixel(start, end)) < TWO_31
    requires WillMessageFit(|file|, img.width, img.height, Layers(img), BitsPerPixel(start, end))
    ensures |shots| == 32 + 8 * |file|
    ensures ListShots(ranking, img, start, end, |shots|) == Success(shots)
    ensures AllInBounds(img, shots) && DistinctAddresses(shots) && LowBits(shots, end)
    ensures WriteBits(img, shots, HeaderBits(I32(|file|)) + MessageBits(file)) == Success(out)
    ensures EncodeOn(ranking, img, file, 0, start, end) == Success(StegoImage(out))
  {
    var bpp := BitsPerPixel(start, end);
    var n := 32 + 8 * |file|;
    BlindHide.SpaceBound(img.width, img.height, Layers(img), bpp);
    WillMessageFitMeaning(|file|, img.width, img.height, Layers(img), bpp);
    PickerUsable(ranking, img, start, end, n);
    shots := ListShots(ranking, img, start, end, n).value;
    var bits := EncodedBits(file, 0);
    assert bits == HeaderBits(I32(|file|)) + MessageBits(file) by {
      assert MessageBits(file)[0..] == MessageBits(file);
    }
    out := WriteBits(img, shots, bits).value;
  }

  /**
   * The header and the message bits written at a picker's first shots are
   * read back by decode with the same list: the written image decodes to the
   * message.
   */
  lemma {:induction false} DecodeOfWritten(ranking: seq<FilteredPixel>, img: Image, out: Image, file: seq<Byte>, start: int, end: int,
                        shots: seq<Shot>)
    requires ListOf(ranking, img) && ValidRange(start, end)
    requires 8 * |file| + 50 < TWO_31
    requires BlindHide.Addresses(img.width, img.height, BitsPerPixel(start, end)) < TWO_31
    requires WillMessageFit(|file|, img.width, img.height, Layers(img), BitsPerPixel(start, end))
    requires |shots| == 32 + 8 * |file| && ListShots(ranking, img, start, end, |shots|) == Success(shots)
    requires out.Valid() && out.width == img.width && out.height == img.height && out.kind == img.kind
    requires WriteBits(img, shots, HeaderBits(I32(|file|)) + MessageBits(file)) == Success(out)
    requires AllInBounds(img, shots) && DistinctAddresses(shots)
    ensures DecodeOn(ranking, StegoImage(out), start, end) == Success(file)
  {
    var bpp := BitsPerPixel(start, end);
    var header, body := HeaderBits(I32(|file|)), MessageBits(file);
    var hs, bs := shots[..32], shots[32..];
    assert shots == hs + bs;
    WriteThenReadParts(img, hs, bs, header, body);
    HeaderRoundTrip(I32(|file|));
    BlindHide.SpaceBound(img.width, img.height, Layers(img), bpp);
    FittingLengthIsPlausible(|file|, img.width, img.height, Layers(img), bpp);
    PackMessage(file);
    DecodeReads(ranking, StegoImage(out), start, end, shots, header, body);
  }

  /** decode over a list whose first shots read a plausible header and then that many body bits. */
  lemma {:induction false} DecodeReads(ranking: seq<FilteredPixel>, s: StegoImage, start: int, end: int, all: seq<Shot>,
                    header: seq<bool>, body: seq<bool>)
    requires s.Valid() && ValidRange(start, end) && |ranking| >= 1
    requires |all| >= 32 && ListShots(ranking, s.image, start, end, |all|) == Success(all)
    requires ReadBits(s.image, all[..32]) == Success(header)
    requires |all| == 32 + BodyLength(HeaderValue(header))
    requires !Implausible(BodyLength(HeaderValue(header)),
                          ImageSpace(s.image.width, s.image.height, GetLayerCount(s), BitsPerPixel(start, end)))
    requires ReadBits(s.image, all[32..]) == Success(body)
    ensures DecodeOn(ranking, s, start, end) == Success(Pack(body))
  {
    var bpp := BitsPerPixel(start, end);
    PicksPrefix(ranking, StartCount(s.image, bpp), bpp, 32, |all|);
    assert ListShots(ranking, s.image, start, end, 32) == Success(all[..32]);
    DecodeOfSteps(ranking, s, start, end, all[..32], header, all, body);
  }

  /** decode's steps one by one: the header shots and bits, a plausible length, the body shots and bits. */
  lemma {:induction false} DecodeOfSteps(ranking: seq<FilteredPixel>, s: StegoImage, start: int, end: int,
                                         hs: seq<Shot>, header: seq<bool>, all: seq<Shot>, body: seq<bool>)
    requires s.Valid() && ValidRange(start, end) && |ranking| >= 1
    requires ListShots(ranking, s.image, start, end, 32) == Success(hs)
    requires ReadBits(s.image, hs) == Success(header)
    requires !Implausible(BodyLength(HeaderValue(header)),
                          ImageSpace(s.image.width, s.image.height, GetLayerCount(s), BitsPerPixel(start, end)))
    requires ListShots(ranking, s.image, start, end, 32 + BodyLength(HeaderValue(header))) == Success(all)
    requires |all| >= 32 && ReadBits(s.image, all[32..]) == Success(body)
    ensures DecodeOn(ranking, s, start, end) == Success(Pack(body))
  {
  }

  // ----- the shots the loops have made so far -----

  /** `shots` are what calls lo, lo + 1, ... of getShot returned, on a picker over `ranking` started at n0. */
  ghost predicate IsRun(shots: seq<Shot>, lo: nat, ranking: seq<FilteredPixel>, n0: int, bpp: int)
    decreases |shots|
  {
    |ranking| >= 1 && bpp >= 1 &&
    (shots == [] ||
     (IsRun(shots[..|shots| - 1], lo, ranking, n0, bpp) &&
      Call(ranking, n0, bpp, lo + (|shots| - 1)) == Success(shots[|shots| - 1])))
  }

  lemma {:induction false} RunStep(shots: seq<Shot>, lo: nat, ranking: seq<FilteredPixel>, n0: int, bpp: int, s: Shot)
    requires IsRun(shots, lo, ranking, n0, bpp) && Call(ranking, n0, bpp, lo + |shots|) == Success(s)
    ensures IsRun(shots + [s], lo, ranking, n0, bpp)
  {
    assert (shots + [s])[..|shots|] == shots;
  }

  /** A run from call 0 is what Picks computes. */
  lemma {:induction false} RunIsPicks(shots: seq<Shot>, ranking: seq<FilteredPixel>, n0: int, bpp: int)
    requires IsRun(shots, 0, ranking, n0, bpp)
    ensures Picks(ranking, n0, bpp, |shots|) == Success(shots)
    decreases |shots|
  {
    if shots != [] {
      var n := |shots| - 1;
      RunIsPicks(shots[..n], ranking, n0, bpp);
      assert shots == shots[..n] + [shots[n]];
    }
  }

  /** A run from call 0 followed by a run from the call after it is one run. */
  lemma {:induction false} RunConcat(a: seq<Shot>, b: seq<Shot>, ranking: seq<FilteredPixel>, n0: int, bpp: int)
    requires IsRun(a, 0, ranking, n0, bpp) && IsRun(b, |a|, ranking, n0, bpp)
    ensures IsRun(a + b, 0, ranking, n0, bpp)
    decreases |b|
  {
    if b == [] {
      assert a + b == a;
    } else {
      var n := |b| - 1;
      RunConcat(a, b[..n], ranking, n0, bpp);
      assert (a + b)[..|a + b| - 1] == a + b[..n];
      assert (a + b)[|a + b| - 1] == b[n];
    }
  }

  /** After a run, a failing call makes every longer run fail. */
  lemma {:induction false} RunCrash(shots: seq<Shot>, ranking: seq<FilteredPixel>, n0: int, bpp: int, n: nat)
    requires IsRun(shots, 0, ranking, n0, bpp) && Call(ranking, n0, bpp, |shots|).Failure? && |shots| < n
    ensures Picks(ranking, n0, bpp, n) == Failure(Crash)
  {
    RunIsPicks(shots, ranking, n0, bpp);
    assert Picks(ranking, n0, bpp, |shots| + 1).Failure?;
    PicksFailFrom(ranking, n0, bpp, |shots| + 1, n);
  }

  /** A successful call of a picker over the image's pixels lands in the image. */
  lemma {:induction false} CallInImage(ranking: seq<FilteredPixel>, n0: int, bpp: int, i: nat, img: Image)
    requires |ranking| >= 1 && bpp >= 1 && PositionsIn(ranking, img) && Call(ranking, n0, bpp, i).Success?
    ensures img.InBounds(Call(ranking, n0, bpp, i).value.x, Call(ranking, n0, bpp, i).value.y)
  {
    var c := I32(n0 - i);
    var m := bpp * 3;
    var arrayPos := JavaRem((c - JavaRem(c, m)) / m, |ranking|);
    assert ranking[arrayPos].x == Call(ranking, n0, bpp, i).value.x;
  }

  /**
   * A picker this algorithm builds on an image: its list names pixels of the
   * image and its counter starts at W * H * bpp * 3.
   */
  ghost predicate PickerOf(img: Image, start: int, end: int, ranking: seq<FilteredPixel>, n0: int)
  {
    img.Valid() && ValidRange(start, end) && |ranking| >= 1 && PositionsIn(ranking, img) &&
    n0 == StartCount(img, BitsPerPixel(start, end))
  }

  /** A run of the picker of this algorithm is what PickerShots computes. */
  lemma {:induction false} PickerRun(img: Image, start: int, end: int, ranking: seq<FilteredPixel>, n0: int,
                  shots: seq<Shot>)
    requires PickerOf(img, start, end, ranking, n0) && IsRun(shots, 0, ranking, n0, BitsPerPixel(start, end))
    ensures ListShots(ranking, img, start, end, |shots|) == Success(shots)
  {
    RunIsPicks(shots, ranking, n0, BitsPerPixel(start, end));
  }

  /** After a run of the picker of this algorithm, a failing call makes every longer run fail. */
  lemma {:induction false} PickerCrash(img: Image, start: int, end: int, ranking: seq<FilteredPixel>, n0: int,
                    shots: seq<Shot>, n: nat)
    requires PickerOf(img, start, end, ranking, n0) && IsRun(shots, 0, ranking, n0, BitsPerPixel(start, end))
    requires Call(ranking, n0, BitsPerPixel(start, end), |shots|).Failure? && |shots| < n
    ensures ListShots(ranking, img, start, end, n) == Failure(Crash)
  {
    RunCrash(shots, ranking, n0, BitsPerPixel(start, end), n);
  }

  // ----- the outcomes of the spec functions, one lemma per exit of the Java code -----

  lemma {:induction false} EncodeRefused(kind: FilterKind, img: Image, file: seq<Byte>, delivered: nat, start: int, end: int)
    requires img.Valid() && ValidRange(start, end) && delivered <= 8 * |file|
    requires !WillMessageFit(|file|, img.width, img.height, Layers(img), BitsPerPixel(start, end))
    ensures EncodeSpec(kind, img, file, delivered, start, end) == Failure(IllegalArgument)
  {
    RankingFacts(kind, img, end);
  }

  /** A call of getShot during encode throws: encode fails. */
  lemma {:induction false} EncodeCrash(img: Image, file: seq<Byte>, delivered: nat, start: int, end: int,
                    ranking: seq<FilteredPixel>, n0: int, shots: seq<Shot>)
    requires PickerOf(img, start, end, ranking, n0) && delivered <= 8 * |file|
    requires WillMessageFit(|file|, img.width, img.height, Layers(img), BitsPerPixel(start, end))
    requires IsRun(shots, 0, ranking, n0, BitsPerPixel(start, end)) && |shots| < |EncodedBits(file, delivered)|
    requires Call(ranking, n0, BitsPerPixel(start, end), |shots|).Failure?
    ensures EncodeOn(ranking, img, file, delivered, start, end) == Failure(Crash)
  {
    PickerCrash(img, start, end, ranking, n0, shots, |EncodedBits(file, delivered)|);
  }

  lemma {:induction false} EncodeSpecIs(img: Image, file: seq<Byte>, delivered: nat, start: int, end: int,
                     ranking: seq<FilteredPixel>, n0: int, shots: seq<Shot>, out: Image)
    requires PickerOf(img, start, end, ranking, n0) && delivered <= 8 * |file|
    requires WillMessageFit(|file|, img.width, img.height, Layers(img), BitsPerPixel(start, end))
    requires IsRun(shots, 0, ranking, n0, BitsPerPixel(start, end)) && |shots| == |EncodedBits(file, delivered)|
    requires WriteBits(img, shots, EncodedBits(file, delivered)) == Success(out)
    ensures EncodeOn(ranking, img, file, delivered, start, end) == Success(StegoImage(out))
  {
    PickerRun(img, start, end, ranking, n0, shots);
  }

  /** A call of getShot in the header loop of decode throws: decode fails. */
  lemma {:induction false} DecodeHeaderCrash(s: StegoImage, start: int, end: int, ranking: seq<FilteredPixel>, n0: int,
                          hshots: seq<Shot>)
    requires s.Valid() && PickerOf(s.image, start, end, ranking, n0)
    requires IsRun(hshots, 0, ranking, n0, BitsPerPixel(start, end)) && |hshots| < 32
    requires Call(ranking, n0, BitsPerPixel(start, end), |hshots|).Failure?
    ensures DecodeOn(ranking, s, start, end) == Failure(Crash)
  {
    PickerCrash(s.image, start, end, ranking, n0, hshots, 32);
  }

  /** The first 32 calls of getShot returned `hshots`, and the bits at them are `header`. */
  ghost predicate HeaderRead(s: StegoImage, ranking: seq<FilteredPixel>, n0: int, bpp: int, hshots: seq<Shot>,
                             header: seq<bool>)
  {
    s.Valid() && |hshots| == 32 && IsRun(hshots, 0, ranking, n0, bpp) && ReadBits(s.image, hshots) == Success(header)
  }

  /** Calls 32, 33, ... of getShot returned `bshots`, and the bits at them are `body`. */
  ghost predicate BodyRead(s: StegoImage, ranking: seq<FilteredPixel>, n0: int, bpp: int, bshots: seq<Shot>,
                           body: seq<bool>)
  {
    s.Valid() && IsRun(bshots, 32, ranking, n0, bpp) && ReadBits(s.image, bshots) == Success(body)
  }

  lemma {:induction false} DecodeNoMessage(s: StegoImage, start: int, end: int, ranking: seq<FilteredPixel>, n0: int,
                        hshots: seq<Shot>, header: seq<bool>)
    requires s.Valid() && PickerOf(s.image, start, end, ranking, n0)
    requires HeaderRead(s, ranking, n0, BitsPerPixel(start, end), hshots, header)
    requires Implausible(BodyLength(HeaderValue(header)),
                         ImageSpace(s.image.width, s.image.height, GetLayerCount(s), BitsPerPixel(start, end)))
    ensures DecodeOn(ranking, s, start, end) == Failure(NoMessage)
  {
    PickerRun(s.image, start, end, ranking, n0, hshots);
  }

  /** A call of getShot in the body loop of decode throws: decode fails. */
  lemma {:induction false} DecodeBodyCrash(s: StegoImage, start: int, end: int, ranking: seq<FilteredPixel>, n0: int,
                        hshots: seq<Shot>, header: seq<bool>, bshots: seq<Shot>, body: seq<bool>)
    requires s.Valid() && PickerOf(s.image, start, end, ranking, n0)
    requires HeaderRead(s, ranking, n0, BitsPerPixel(start, end), hshots, header)
    requires !Implausible(BodyLength(HeaderValue(header)),
                          ImageSpace(s.image.width, s.image.height, GetLayerCount(s), BitsPerPixel(start, end)))
    requires BodyRead(s, ranking, n0, BitsPerPixel(start, end), bshots, body)
    requires |bshots| < BodyLength(HeaderValue(header))
    requires Call(ranking, n0, BitsPerPixel(start, end), 32 + |bshots|).Failure?
    ensures DecodeOn(ranking, s, start, end) == Failure(Crash)
  {
    HeaderThenCrash(s, start, end, ranking, n0, hshots, header, bshots, body);
    DecodeBodyFails(ranking, s, start, end, hshots, header);
  }

  /** The picker's runs behind DecodeBodyCrash: the header run succeeds, the run of 32 + length shots fails. */
  lemma {:induction false} HeaderThenCrash(s: StegoImage, start: int, end: int, ranking: seq<FilteredPixel>, n0: int,
                                           hshots: seq<Shot>, header: seq<bool>, bshots: seq<Shot>, body: seq<bool>)
    requires s.Valid() && PickerOf(s.image, start, end, ranking, n0)
    requires HeaderRead(s, ranking, n0, BitsPerPixel(start, end), hshots, header)
    requires BodyRead(s, ranking, n0, BitsPerPixel(start, end), bshots, body)
    requires |bshots| < BodyLength(HeaderValue(header))
    requires Call(ranking, n0, BitsPerPixel(start, end), 32 + |bshots|).Failure?
    ensures |hshots| == 32 && ListShots(ranking, s.image, start, end, |hshots|) == Success(hshots)
    ensures ListShots(ranking, s.image, start, end, 32 + BodyLength(HeaderValue(header))) == Failure(Crash)
  {
    PickerRun(s.image, start, end, ranking, n0, hshots);
    BodyShotsFail(s.image, start, end, ranking, n0, hshots, bshots, BodyLength(HeaderValue(header)));
  }

  /** Header shots, then body shots up to a failing call: the run of 32 + length shots fails. */
  lemma {:induction false} BodyShotsFail(img: Image, start: int, end: int, ranking: seq<FilteredPixel>, n0: int,
                      hshots: seq<Shot>, bshots: seq<Shot>, length: int)
    requires PickerOf(img, start, end, ranking, n0)
    requires |hshots| == 32 && IsRun(hshots, 0, ranking, n0, BitsPerPixel(start, end))
    requires IsRun(bshots, 32, ranking, n0, BitsPerPixel(start, end)) && |bshots| < length
    requires Call(ranking, n0, BitsPerPixel(start, end), 32 + |bshots|).Failure?
    ensures ListShots(ranking, img, start, end, 32 + length) == Failure(Crash)
  {
    var bpp := BitsPerPixel(start, end);
    RunConcat(hshots, bshots, ranking, n0, bpp);
    PickerCrash(img, start, end, ranking, n0, hshots + bshots, 32 + length);
  }

  /** A plausible header followed by a failing run of body shots: decode raises the picker's exception. */
  lemma {:induction false} DecodeBodyFails(ranking: seq<FilteredPixel>, s: StegoImage, start: int, end: int, hshots: seq<Shot>,
                        header: seq<bool>)
    requires s.Valid() && ValidRange(start, end) && |ranking| >= 1
    requires |hshots| == 32 && ListShots(ranking, s.image, start, end, |hshots|) == Success(hshots)
    requires ReadBits(s.image, hshots) == Success(header)
    requires !Implausible(BodyLength(HeaderValue(header)),
                          ImageSpace(s.image.width, s.image.height, GetLayerCount(s), BitsPerPixel(start, end)))
    requires ListShots(ranking, s.image, start, end, 32 + BodyLength(HeaderValue(header))) == Failure(Crash)
    ensures DecodeOn(ranking, s, start, end) == Failure(Crash)
  {
  }

  lemma {:induction false} DecodeSpecIs(s: StegoImage, start: int, end: int, ranking: seq<FilteredPixel>, n0: int,
                     hshots: seq<Shot>, header: seq<bool>, bshots: seq<Shot>, body: seq<bool>)
    requires s.Valid() && PickerOf(s.image, start, end, ranking, n0)
    requires HeaderRead(s, ranking, n0, BitsPerPixel(start, end), hshots, header)
    requires !Implausible(BodyLength(HeaderValue(header)),
                          ImageSpace(s.image.width, s.image.height, GetLayerCount(s), BitsPerPixel(start, end)))
    requires BodyRead(s, ranking, n0, BitsPerPixel(start, end), bshots, body)
    requires |bshots| == BodyLength(HeaderValue(header))
    ensures DecodeOn(ranking, s, start, end) == Success(Pack(body))
  {
    var bpp := BitsPerPixel(start, end);
    PickerRun(s.image, start, end, ranking, n0, hshots);
    RunConcat(hshots, bshots, ranking, n0, bpp);
    PickerRun(s.image, start, end, ranking, n0, hshots + bshots);
    assert (hshots + bshots)[32..] == bshots;
  }

  lemma {:induction false} SimulationRefused(kind: FilterKind, img: Image, size: nat, delivered: nat, start: int, end: int)
    requires img.Valid() && ValidRange(start, end) && delivered <= 8 * size
    requires !WillMessageFit(size, img.width, img.height, Layers(img), BitsPerPixel(start, end))
    ensures SimulationSpec(kind, img, size, delivered, start, end) == Failure(IllegalArgument)
  {
    RankingFacts(kind, img, end);
  }

  /** A call of getShot during the simulation throws: the simulation fails. */
  lemma {:induction false} SimulationCrash(img: Image, size: nat, delivered: nat, start: int, end: int,
                        ranking: seq<FilteredPixel>, n0: int, shots: seq<Shot>)
    requires PickerOf(img, start, end, ranking, n0) && delivered <= 8 * size
    requires WillMessageFit(size, img.width, img.height, Layers(img), BitsPerPixel(start, end))
    requires IsRun(shots, 0, ranking, n0, BitsPerPixel(start, end)) && |shots| < 32 + (8 * size - delivered)
    requires Call(ranking, n0, BitsPerPixel(start, end), |shots|).Failure?
    ensures SimulationOn(ranking, img, size, delivered, start, end) == Failure(Crash)
  {
    var total: nat := 32 + (8 * size - delivered);
    PickerCrash(img, start, end, ranking, n0, shots, total);
    SimulationShotsFail(ranking, img, size, delivered, start, end);
  }

  /** A message that fits, with a run of shots that fails: the simulation raises the picker's exception. */
  lemma {:induction false} SimulationShotsFail(ranking: seq<FilteredPixel>, img: Image, size: nat, delivered: nat, start: int, end: int)
    requires img.Valid() && ValidRange(start, end) && delivered <= 8 * size && |ranking| >= 1
    requires WillMessageFit(size, img.width, img.height, Layers(img), BitsPerPixel(start, end))
    requires ListShots(ranking, img, start, end, 32 + (8 * size - delivered)) == Failure(Crash)
    ensures SimulationOn(ranking, img, size, delivered, start, end) == Failure(Crash)
  {
  }

  lemma {:induction false} SimulationSpecIs(img: Image, size: nat, delivered: nat, start: int, end: int,
                         ranking: seq<FilteredPixel>, n0: int, shots: seq<Shot>, out: Image)
    requires PickerOf(img, start, end, ranking, n0) && delivered <= 8 * size
    requires WillMessageFit(size, img.width, img.height, Layers(img), BitsPerPixel(start, end))
    requires IsRun(shots, 0, ranking, n0, BitsPerPixel(start, end)) && |shots| == 32 + (8 * size - delivered)
    requires Mark(Blacken(img), shots) == Success(out)
    ensures SimulationOn(ranking, img, size, delivered, start, end) == Success(out)
  {
    PickerRun(img, start, end, ranking, n0, shots);
  }

  // ----- the picker object -----

  /**
   * generateList: set the filter's image, store pixel (i, j) with the
   * absolute value of its score at index i * H + j, then sort the array with
   * the pixel comparator.
   */
  method GenerateList(image: Image, filter: Filter) returns (fparray: array<FilteredPixel>)
    requires image.Valid() && Addressable(image)
    modifies filter
    ensures filter.Valid() && filter.image == Some(image)
    ensures filter.startRange == old(filter.startRange) && filter.endRange == old(filter.endRange)
    ensures fresh(fparray)
    ensures fparray[..] == SortSeq(Scores(filter.kind, image, ByteMask(filter.startRange, filter.endRange)))
  {
    filter.SetImage(Some(image));
    var width, height := image.width, image.height;
    fparray := new FilteredPixel[width * height];
    for i := 0 to width
      invariant filter.Valid() && filter.image == Some(image)
      invariant filter.startRange == old(filter.startRange) && filter.endRange == old(filter.endRange)
      invariant Filled(fparray, filter.kind, image, ByteMask(filter.startRange, filter.endRange), i * height)
    {
      FillColumn(fparray, filter, image, i);
    }
    FilledAll(fparray, filter.kind, image, ByteMask(filter.startRange, filter.endRange));
    SortPixels(fparray);
  }

  /** The first n entries of the array are the scored pixels generateList stores there. */
  ghost predicate Filled(a: array<FilteredPixel>, kind: FilterKind, img: Image, mask: bv32, n: int)
    reads a
  {
    img.Valid() && a.Length == img.width * img.height && 0 <= n <= a.Length &&
    forall k :: 0 <= k < n ==> a[k] == Entry(kind, img, mask, k)
  }

  lemma {:induction false} FilledAll(a: array<FilteredPixel>, kind: FilterKind, img: Image, mask: bv32)
    requires img.Valid() && Filled(a, kind, img, mask, img.width * img.height)
    ensures a[..] == Scores(kind, img, mask)
  {
    forall k | 0 <= k < a.Length
      ensures a[k] == Scores(kind, img, mask)[k]
    {
      ScoresAt(kind, img, mask, a.Length, k);
    }
  }

  /** The inner loop of generateList: column i, pixels (i, 0) .. (i, H - 1). */
  method FillColumn(fparray: array<FilteredPixel>, filter: Filter, image: Image, i: int)
    requires filter.Valid() && filter.image == Some(image) && 0 <= i < image.width
    requires Filled(fparray, filter.kind, image, ByteMask(filter.startRange, filter.endRange), i * image.height)
    modifies fparray
    ensures Filled(fparray, filter.kind, image, ByteMask(filter.startRange, filter.endRange), (i + 1) * image.height)
  {
    ghost var mask := ByteMask(filter.startRange, filter.endRange);
    var height := image.height;
    ColumnStart(i, image.width, height);
    ColumnOffsetIs(i, height);
    ghost var k := ColumnOffset(i, height);
    for j := 0 to height
      invariant k == ColumnOffset(i, height) + j
      invariant Filled(fparray, filter.kind, image, mask, k)
    {
      FillPixel(fparray, filter, image, mask, i, j, k);
      k := k + 1;
    }
  }

  /** One pass of the inner loop of generateList: pixel (i, j) and its score stored at index i * H + j. */
  method FillPixel(fparray: array<FilteredPixel>, filter: Filter, image: Image, ghost mask: bv32, i: int, j: int,
                   ghost k: int)
    requires filter.Valid() && filter.image == Some(image) && mask == ByteMask(filter.startRange, filter.endRange)
    requires 0 <= i < image.width && 0 <= j < image.height && k == ColumnOffset(i, image.height) + j
    requires Filled(fparray, filter.kind, image, mask, k)
    modifies fparray
    ensures Filled(fparray, filter.kind, image, mask, k + 1)
  {
    var v := filter.GetValue(i, j);
    ColumnOffsetIs(i, image.height);
    EntryAt(filter.kind, image, mask, i, j);
    fparray[i * image.height + j] := FilteredPixel(i, j, Abs(v.value));
  }

  /** i * height, counted up column by column. */
  function ColumnOffset(i: nat, height: int): int
  {
    if i == 0 then 0 else ColumnOffset(i - 1, height) + height
  }

  lemma {:induction false} ColumnOffsetIs(i: nat, height: int)
    ensures ColumnOffset(i, height) == i * height
  {
    if i > 0 {
      ColumnOffsetIs(i - 1, height);
    }
  }

  /** The columns before column i + 1 fit in the image. */
  lemma {:induction false} NextColumn(i: nat, width: int, height: int)
    requires i < width && height >= 1
    ensures 0 <= ColumnOffset(i, height) && ColumnOffset(i + 1, height) == ColumnOffset(i, height) + height
    ensures ColumnOffset(i + 1, height) <= width * height
  {
    ColumnOffsetIs(i, height);
    ColumnOffsetIs(i + 1, height);
    ColumnStart(i, width, height);
  }

  /** Entry i * H + j of the list is pixel (i, j) with its score. */
  lemma {:induction false} EntryAt(kind: FilterKind, img: Image, mask: bv32, i: int, j: int)
    requires img.Valid() && 0 <= i < img.width && 0 <= j < img.height
    ensures 0 <= i * img.height + j < img.width * img.height
    ensures Entry(kind, img, mask, i * img.height + j) == FilteredPixel(i, j, Score(kind, img, mask, i, j))
  {
    ColumnMajor(i, j, img.width, img.height);
  }

  lemma {:induction false} ColumnStart(i: int, width: int, height: int)
    requires 0 <= i < width && height >= 1
    ensures 0 <= i * height && i * height + height == (i + 1) * height <= width * height
  {
    MulGap(height, i, width);
  }

  class ShotPicker {
    /** mStartRange, mEndRange: the algorithm's bit range. */
    const startRange: int
    const endRange: int
    /** fparray: every pixel with its score, ascending. */
    var fparray: array<FilteredPixel>
    /** mCountBits: counts down from W * H * bpp * 3. */
    var countBits: int

    /**
     * The picker: the filter's range becomes end+1 .. 8, the counter starts
     * at `H * W * bpp * 3` and the list is generated. Once the image is set
     * and W * H fits an int (`Addressable`), generateList cannot throw, so
     * the handler that exits is never reached and is not modelled.
     */
    constructor (startrange: int, endrange: int, image: Image, filter: Filter)
      requires ValidRange(startrange, endrange) && image.Valid() && Addressable(image)
      modifies filter
      ensures startRange == startrange && endRange == endrange
      ensures filter.Valid() && filter.image == Some(image)
      ensures filter.startRange == endrange + 1 && filter.endRange == 8
      ensures fresh(fparray) && fparray[..] == Ranking(filter.kind, image, endrange)
      ensures countBits == StartCount(image, BitsPerPixel(startrange, endrange))
    {
      startRange := startrange;
      endRange := endrange;
      filter.SetStartRange(endrange + 1);
      filter.SetEndRange(8);
      var count := ShotPicker.Count(image, startrange, endrange);
      countBits := count;
      var list := GenerateList(image, filter);
      fparray := list;
    }

    /** The counter's start, H * W * bpp * 3 in Java int arithmetic. */
    static method Count(image: Image, startrange: int, endrange: int) returns (count: int)
      requires ValidRange(startrange, endrange) && image.Valid()
      ensures count == StartCount(image, BitsPerPixel(startrange, endrange))
    {
      var bitsPerPixel := (endrange - startrange) + 1;
      count := I32(I32(I32(image.height * image.width) * bitsPerPixel) * 3);
    }

    /** getShot: the shot the counter names; the counter then goes down by one. */
    method GetShot() returns (r: Result<Shot>)
      requires fparray.Length >= 1 && startRange <= endRange
      modifies this
      ensures fparray == old(fparray)
      ensures r == PickAt(fparray[..], old(countBits), BitsPerPixel(startRange, endRange))
      ensures r.Success? ==> countBits == I32(old(countBits) - 1)
    {
      var bitsPerPixel := (endRange - startRange) + 1;
      var rangeUpTo := JavaRem(countBits, bitsPerPixel * 3);
      var arrayPos := JavaRem((countBits - rangeUpTo) / (bitsPerPixel * 3), fparray.Length);
      if arrayPos < 0 {
        return Failure(Crash);
      }
      var fp := fparray[arrayPos];
      var bit := JavaRem(rangeUpTo, bitsPerPixel);
      r := Success(Shot(fp.x, fp.y, bit, (rangeUpTo - bit) / bitsPerPixel));
      countBits := I32(countBits - 1);
    }
  }

  /** A picker over `ranking`, started at n0, that has answered `calls` calls. */
  ghost predicate Picking(rgen: ShotPicker, ranking: seq<FilteredPixel>, n0: int, bpp: int, calls: nat)
    reads rgen, rgen.fparray
  {
    rgen.fparray[..] == ranking && |ranking| >= 1 &&
    rgen.startRange <= rgen.endRange && bpp == BitsPerPixel(rgen.startRange, rgen.endRange) &&
    rgen.countBits == I32(n0 - calls)
  }

  /** The picker after one more call, counted by the run that call extends. */
  lemma {:induction false} PickingNext(rgen: ShotPicker, ranking: seq<FilteredPixel>, n0: int, bpp: int, shots: seq<Shot>,
                                       s: Shot)
    requires Picking(rgen, ranking, n0, bpp, |shots| + 1)
    ensures Picking(rgen, ranking, n0, bpp, |shots + [s]|)
  {
  }

  /** The next call of getShot, continuing a run that began at call lo. */
  method NextShot(rgen: ShotPicker, ghost ranking: seq<FilteredPixel>, ghost n0: int, ghost bpp: int, ghost lo: nat,
                  ghost shots: seq<Shot>) returns (r: Result<Shot>)
    requires Picking(rgen, ranking, n0, bpp, lo + |shots|) && IsRun(shots, lo, ranking, n0, bpp)
    modifies rgen
    ensures r.Failure? ==> r == Failure(Crash) && Call(ranking, n0, bpp, lo + |shots|).Failure?
    ensures r.Success? ==> Picking(rgen, ranking, n0, bpp, lo + |shots| + 1) &&
                           IsRun(shots + [r.value], lo, ranking, n0, bpp) &&
                           Call(ranking, n0, bpp, lo + |shots|) == r
  {
    ghost var k := lo + |shots|;
    r := rgen.GetShot();
    assert r == Call(ranking, n0, bpp, k);
    if r.Success? {
      Decrement(n0, k);
      RunStep(shots, lo, ranking, n0, bpp, r.value);
    }
  }

  // ----- the algorithm object -----

  /** After `shots`, encode has written the first |shots| bits of the message's encoding into `img`. */
  ghost predicate Written(cover: Image, file: seq<Byte>, delivered: nat, ranking: seq<FilteredPixel>, n0: int, bpp: int,
                          shots: seq<Shot>, img: Image)
  {
    cover.Valid() && PositionsIn(ranking, cover) && delivered <= 8 * |file| &&
    |shots| <= |EncodedBits(file, delivered)| && IsRun(shots, 0, ranking, n0, bpp) &&
    WriteBits(cover, shots, EncodedBits(file, delivered)[..|shots|]) == Success(img)
  }

  /** After `shots`, outputSimulation has lightened their pixels, in order, in the blacked-out cover. */
  ghost predicate Marked(cover: Image, ranking: seq<FilteredPixel>, n0: int, bpp: int, shots: seq<Shot>, image: Image)
  {
    cover.Valid() && PositionsIn(ranking, cover) && IsRun(shots, 0, ranking, n0, bpp) &&
    Mark(Blacken(cover), shots) == Success(image)
  }

  class FilterFirst {
    /** mStartBits, mEndBits: the writable bit range. */
    const startBits: int
    const endBits: int
    /** mFilter: scores the pixels; every picker resets its range and image. */
    const filter: Filter

    constructor (start: int, end: int, filter: Filter)
      requires ValidRange(start, end)
      ensures startBits == start && endBits == end && this.filter == filter
    {
      startBits := start;
      endBits := end;
      this.filter := filter;
    }

    /** The Java constructor: out-of-range or inverted bit ranges are refused. */
    static method New(start: int, end: int, filter: Filter) returns (r: Result<FilterFirst>)
      ensures r.Failure? <==> !ValidRange(start, end)
      ensures r.Failure? ==> r.error == IllegalArgument
      ensures r.Success? ==> fresh(r.value) && r.value.startBits == start && r.value.endBits == end &&
                             r.value.filter == filter
    {
      if start > 6 || start < 0 {
        return Failure(IllegalArgument);
      }
      if end > 6 || end < 0 {
        return Failure(IllegalArgument);
      }
      if start > end {
        return Failure(IllegalArgument);
      }
      var f := new FilterFirst(start, end, filter);
      return Success(f);
    }

    /** The default constructor: bit range 0..0 and a Laplace filter on bits 1..8. */
    static method Default() returns (f: FilterFirst)
      ensures fresh(f) && fresh(f.filter) && f.startBits == 0 && f.endBits == 0
      ensures f.filter.kind == Laplace && f.filter.image.None? && f.filter.startRange == 1 && f.filter.endRange == 8
    {
      var laplace := new Filter.WithRange(Laplace, 1, 8);
      f := new FilterFirst(0, 0, laplace);
    }

    /** willMessageFit. */
    function WillFit(message: InsertableMessage, img: Image): bool
      requires img.Valid()
    {
      WillMessageFit(message.GetSize(), img.width, img.height, Layers(img), BitsPerPixel(startBits, endBits))
    }

    /** A new picker on `image` over this algorithm's range, in its initial state. */
    method NewPicker(image: Image) returns (rgen: ShotPicker, ghost ranking: seq<FilteredPixel>, ghost n0: int)
      requires ValidRange(startBits, endBits) && image.Valid() && Addressable(image)
      modifies filter
      ensures fresh(rgen) && fresh(rgen.fparray)
      ensures ranking == Ranking(filter.kind, image, endBits) && PickerOf(image, startBits, endBits, ranking, n0)
      ensures Picking(rgen, ranking, n0, BitsPerPixel(startBits, endBits), 0)
      ensures filter.Valid() && filter.image == Some(image) && filter.startRange == endBits + 1 && filter.endRange == 8
    {
      rgen := new ShotPicker(startBits, endBits, image, filter);
      ranking := rgen.fparray[..];
      n0 := rgen.countBits;
      RankingFacts(filter.kind, image, endBits);
    }

    /** encode (without LSB matching). */
    method Encode(message: InsertableMessage, cover: Image) returns (r: Result<StegoImage>)
      requires ValidRange(startBits, endBits) && cover.Valid() && Addressable(cover) && message.Valid()
      modifies message, filter
      ensures r == EncodeSpec(filter.kind, cover, message.file, old(message.Delivered()), startBits, endBits)
      ensures r.Failure? && r.error == IllegalArgument ==> unchanged(filter)
      ensures r != Failure(IllegalArgument) ==>
                filter.Valid() && filter.image == Some(cover) && filter.startRange == endBits + 1 && filter.endRange == 8
      ensures !WillFit(message, cover) ==> unchanged(message)
      ensures r.Success? ==> message.Valid() && message.Delivered() == 8 * |message.file|
    {
      if !WillFit(message, cover) {
        EncodeRefused(filter.kind, cover, message.file, message.Delivered(), startBits, endBits);
        return Failure(IllegalArgument);
      }
      var rgen, ranking, n0 := NewPicker(cover);
      r := EncodeWith(rgen, ranking, n0, message, cover);
    }

    /** encode once the message is known to fit and the picker is built: the header loop, then the message loop. */
    method EncodeWith(rgen: ShotPicker, ghost ranking: seq<FilteredPixel>, ghost n0: int, message: InsertableMessage,
                      cover: Image) returns (r: Result<StegoImage>)
      requires cover.Valid() && message.Valid() && WillFit(message, cover)
      requires PickerOf(cover, startBits, endBits, ranking, n0)
      requires Picking(rgen, ranking, n0, BitsPerPixel(startBits, endBits), 0)
      modifies rgen, message
      ensures r == EncodeOn(ranking, cover, message.file, old(message.Delivered()), startBits, endBits)
      ensures r.Success? ==> message.Valid() && !message.NotFinished()
    {
      ghost var delivered := message.Delivered();
      ghost var file := message.file;
      ghost var bpp := BitsPerPixel(startBits, endBits);
      var messageSize := I32(message.GetSize());
      assert Written(cover, file, delivered, ranking, n0, bpp, [], cover);
      var head, hshots := WriteHeader(rgen, ranking, n0, bpp, cover, file, delivered, messageSize);
      if head.Failure? {
        EncodeCrash(cover, file, delivered, startBits, endBits, ranking, n0, hshots);
        return Failure(Crash);
      }
      var out, shots := WriteBody(rgen, ranking, n0, bpp, cover, file, delivered, hshots, head.value, message);
      if out.Failure? {
        EncodeCrash(cover, file, delivered, startBits, endBits, ranking, n0, shots);
        return Failure(Crash);
      }
      EncodeSpecIs(cover, file, delivered, startBits, endBits, ranking, n0, shots, out.value);
      return Success(StegoImage(out.value));
    }

    /** The first loop of encode: the 32 bits of the message size, least significant first. */
    static method WriteHeader(rgen: ShotPicker, ghost ranking: seq<FilteredPixel>, ghost n0: int, ghost bpp: int,
                              cover: Image, ghost file: seq<Byte>, ghost delivered: nat, messageSize: int)
      returns (r: Result<Image>, ghost shots: seq<Shot>)
      requires Picking(rgen, ranking, n0, bpp, 0) && Written(cover, file, delivered, ranking, n0, bpp, [], cover)
      requires messageSize == I32(|file|)
      modifies rgen
      ensures IsRun(shots, 0, ranking, n0, bpp)
      ensures r.Failure? ==> r == Failure(Crash) && |shots| < 32 && Call(ranking, n0, bpp, |shots|).Failure?
      ensures r.Success? ==> |shots| == 32 && Picking(rgen, ranking, n0, bpp, 32) &&
                             Written(cover, file, delivered, ranking, n0, bpp, shots, r.value)
    {
      shots := [];
      var img := cover;
      for i := 0 to 32
        invariant |shots| == i
        invariant Picking(rgen, ranking, n0, bpp, i)
        invariant Written(cover, file, delivered, ranking, n0, bpp, shots, img)
      {
        var bit := JavaBit(messageSize, i);
        EncodedHeaderBit(file, delivered, i);
        var next, s := PutBit(rgen, cover, file, delivered, ranking, n0, bpp, shots, img, bit);
        if next.Failure? {
          return Failure(Crash), shots;
        }
        shots := shots + [s];
        img := next.value;
      }
      r := Success(img);
    }

    /** The second loop of encode: one message bit per pass until the message is finished. */
    static method WriteBody(rgen: ShotPicker, ghost ranking: seq<FilteredPixel>, ghost n0: int, ghost bpp: int,
                            ghost cover: Image, ghost file: seq<Byte>, ghost delivered: nat, ghost shots0: seq<Shot>,
                            image0: Image, message: InsertableMessage) returns (r: Result<Image>, ghost shots: seq<Shot>)
      requires Picking(rgen, ranking, n0, bpp, |shots0|) && Written(cover, file, delivered, ranking, n0, bpp, shots0, image0)
      requires message.Valid() && message.file == file && delivered <= message.Delivered()
      requires |shots0| == 32 + (message.Delivered() - delivered)
      modifies rgen, message
      ensures IsRun(shots, 0, ranking, n0, bpp)
      ensures r.Failure? ==> r == Failure(Crash) && |shots| < |EncodedBits(file, delivered)| &&
                             Call(ranking, n0, bpp, |shots|).Failure?
      ensures r.Success? ==> |shots| == |EncodedBits(file, delivered)| &&
                             WriteBits(cover, shots, EncodedBits(file, delivered)) == Success(r.value)
      ensures r.Success? ==> message.Valid() && !message.NotFinished()
    {
      shots := shots0;
      var img := image0;
      while message.NotFinished()
        invariant message.Valid() && message.file == file
        invariant delivered <= message.Delivered() <= 8 * |file|
        invariant |shots| == 32 + (message.Delivered() - delivered)
        invariant Picking(rgen, ranking, n0, bpp, |shots|)
        invariant Written(cover, file, delivered, ranking, n0, bpp, shots, img)
        decreases 8 * |file| - message.Delivered()
      {
        var next, s := PutMessageBit(rgen, cover, file, delivered, ranking, n0, bpp, shots, img, message);
        if next.Failure? {
          return Failure(Crash), shots;
        }
        PickingNext(rgen, ranking, n0, bpp, shots, s);
        shots := shots + [s];
        img := next.value;
      }
      ghost var bits := EncodedBits(file, delivered);
      assert bits[..|shots|] == bits;
      r := Success(img);
    }

    /** One pass of the message loop of encode: the next shot, the next message bit, the write. */
    static method PutMessageBit(rgen: ShotPicker, ghost cover: Image, ghost file: seq<Byte>, ghost delivered: nat,
                                ghost ranking: seq<FilteredPixel>, ghost n0: int, ghost bpp: int, ghost shots: seq<Shot>,
                                img: Image, message: InsertableMessage) returns (r: Result<Image>, s: Shot)
      requires Picking(rgen, ranking, n0, bpp, |shots|)
      requires Written(cover, file, delivered, ranking, n0, bpp, shots, img)
      requires message.Valid() && message.file == file && !message.finished
      requires delivered <= message.Delivered() && |shots| == 32 + (message.Delivered() - delivered)
      modifies rgen, message
      ensures r.Failure? ==> r == Failure(Crash) && Call(ranking, n0, bpp, |shots|).Failure?
      ensures r.Success? ==> Picking(rgen, ranking, n0, bpp, |shots| + 1) &&
                             Written(cover, file, delivered, ranking, n0, bpp, shots + [s], r.value)
      ensures r.Success? ==> message.Valid() && message.file == file &&
                             message.Delivered() == old(message.Delivered()) + 1
    {
      var sh := NextShot(rgen, ranking, n0, bpp, 0, shots);
      if sh.Failure? {
        return Failure(Crash), Shot(0, 0, 0, 0);
      }
      r, s := PutNextBit(cover, file, delivered, ranking, n0, bpp, shots, img, sh.value, message);
    }

    /** The write half of PutMessageBit: the message's next bit goes to the shot `sh` already taken. */
    static method PutNextBit(ghost cover: Image, ghost file: seq<Byte>, ghost delivered: nat,
                             ghost ranking: seq<FilteredPixel>, ghost n0: int, ghost bpp: int, ghost shots: seq<Shot>,
                             img: Image, sh: Shot, message: InsertableMessage) returns (r: Result<Image>, s: Shot)
      requires Written(cover, file, delivered, ranking, n0, bpp, shots, img) && IsRun(shots + [sh], 0, ranking, n0, bpp)
      requires message.Valid() && message.file == file && !message.finished
      requires delivered <= message.Delivered() && |shots| == 32 + (message.Delivered() - delivered)
      modifies message
      ensures r.Success? && s == sh && Written(cover, file, delivered, ranking, n0, bpp, shots + [s], r.value)
      ensures message.Valid() && message.file == file && message.Delivered() == old(message.Delivered()) + 1
    {
      var bit := NextEncodedBit(message, file, delivered);
      r, s := Put(cover, file, delivered, ranking, n0, bpp, shots, img, sh, bit);
    }

    /** One pass of the header loop of encode: the next shot, then the write of the size bit. */
    static method PutBit(rgen: ShotPicker, ghost cover: Image, ghost file: seq<Byte>, ghost delivered: nat,
                         ghost ranking: seq<FilteredPixel>, ghost n0: int, ghost bpp: int, ghost shots: seq<Shot>,
                         img: Image, bit: bool) returns (r: Result<Image>, s: Shot)
      requires Picking(rgen, ranking, n0, bpp, |shots|)
      requires Written(cover, file, delivered, ranking, n0, bpp, shots, img)
      requires |shots| < |EncodedBits(file, delivered)| && bit == EncodedBits(file, delivered)[|shots|]
      modifies rgen
      ensures r.Failure? ==> r == Failure(Crash) && Call(ranking, n0, bpp, |shots|).Failure?
      ensures r.Success? ==> Picking(rgen, ranking, n0, bpp, |shots| + 1) &&
                             Written(cover, file, delivered, ranking, n0, bpp, shots + [s], r.value)
    {
      var sh := NextShot(rgen, ranking, n0, bpp, 0, shots);
      if sh.Failure? {
        return Failure(Crash), Shot(0, 0, 0, 0);
      }
      r, s := Put(cover, file, delivered, ranking, n0, bpp, shots, img, sh.value, bit);
    }

    /** The write both loops of encode make once the shot and the bit are known. */
    static method Put(ghost cover: Image, ghost file: seq<Byte>, ghost delivered: nat, ghost ranking: seq<FilteredPixel>,
                      ghost n0: int, ghost bpp: int, ghost shots: seq<Shot>, img: Image, sh: Shot, bit: bool)
      returns (r: Result<Image>, s: Shot)
      requires Written(cover, file, delivered, ranking, n0, bpp, shots, img)
      requires |shots| < |EncodedBits(file, delivered)| && bit == EncodedBits(file, delivered)[|shots|]
      requires IsRun(shots + [sh], 0, ranking, n0, bpp)
      ensures r.Success? && s == sh && Written(cover, file, delivered, ranking, n0, bpp, shots + [s], r.value)
    {
      ghost var bits := EncodedBits(file, delivered);
      ghost var k := |shots|;
      s := sh;
      assert Call(ranking, n0, bpp, 0 + k) == Success(s) by {
        assert (shots + [sh])[k] == sh;
      }
      CallInImage(ranking, n0, bpp, k, cover);
      TakeNext(bits, k);
      WriteStep(cover, shots, bits[..k], img, s, bit);
      r := Success(SetPixelBit(img, s.x, s.y, s.layer, s.bitPos, bit));
    }

    /** decode: the message bytes, as written to the output file. */
    method Decode(simage: StegoImage) returns (r: Result<seq<Byte>>)
      requires ValidRange(startBits, endBits) && simage.Valid() && Addressable(simage.image)
      modifies filter
      ensures r == DecodeSpec(filter.kind, simage, startBits, endBits)
      ensures filter.Valid() && filter.image == Some(simage.image) && filter.startRange == endBits + 1 &&
              filter.endRange == 8
    {
      var rgen, ranking, n0 := NewPicker(simage.image);
      r := DecodeWith(rgen, ranking, n0, simage);
    }

    /** decode once the picker is built: the header loop, the plausibility test, the body loop. */
    method DecodeWith(rgen: ShotPicker, ghost ranking: seq<FilteredPixel>, ghost n0: int, simage: StegoImage)
      returns (r: Result<seq<Byte>>)
      requires simage.Valid() && PickerOf(simage.image, startBits, endBits, ranking, n0)
      requires Picking(rgen, ranking, n0, BitsPerPixel(startBits, endBits), 0)
      modifies rgen
      ensures r == DecodeOn(ranking, simage, startBits, endBits)
    {
      ghost var bpp := BitsPerPixel(startBits, endBits);
      var size, hshots, header := ReadSize(rgen, ranking, n0, bpp, simage);
      if size.Failure? {
        DecodeHeaderCrash(simage, startBits, endBits, ranking, n0, hshots);
        return Failure(Crash);
      }
      var size2 := BodyLength(size.value);
      var imageSpace := ImageSpace(simage.image.width, simage.image.height, GetLayerCount(simage),
                                   BitsPerPixel(startBits, endBits));
      if Implausible(size2, imageSpace) {
        DecodeNoMessage(simage, startBits, endBits, ranking, n0, hshots, header);
        return Failure(NoMessage);
      }
      var body, bshots, bits := ReadBody(rgen, ranking, n0, bpp, simage, size2);
      if body.Failure? {
        DecodeBodyCrash(simage, startBits, endBits, ranking, n0, hshots, header, bshots, bits);
        return Failure(Crash);
      }
      DecodeSpecIs(simage, startBits, endBits, ranking, n0, hshots, header, bshots, bits);
      return body;
    }

    /** The first loop of decode and the bit reversal after it: the message length in bytes. */
    static method ReadSize(rgen: ShotPicker, ghost ranking: seq<FilteredPixel>, ghost n0: int, ghost bpp: int,
                           simage: StegoImage) returns (r: Result<int>, ghost hshots: seq<Shot>, ghost header: seq<bool>)
      requires simage.Valid() && PositionsIn(ranking, simage.image) && Picking(rgen, ranking, n0, bpp, 0)
      modifies rgen
      ensures r.Failure? ==> r == Failure(Crash) && IsRun(hshots, 0, ranking, n0, bpp) && |hshots| < 32 &&
                             Call(ranking, n0, bpp, |hshots|).Failure?
      ensures r.Success? ==> Picking(rgen, ranking, n0, bpp, 32) && HeaderRead(simage, ranking, n0, bpp, hshots, header) &&
                             r.value == HeaderValue(header)
    {
      var size := 0;
      header := [];
      hshots := [];
      for i := 0 to 32
        invariant |hshots| == i
        invariant Picking(rgen, ranking, n0, bpp, i) && IsRun(hshots, 0, ranking, n0, bpp)
        invariant ReadBits(simage.image, hshots) == Success(header)
        invariant |header| == i && size == I32(FromMsb(header))
      {
        var bit, s, size' := ReadSizeBit(rgen, ranking, n0, bpp, simage, hshots, header, size);
        if bit.Failure? {
          return Failure(Crash), hshots, header;
        }
        hshots := hshots + [s];
        header := header + [bit.value == 1];
        size := size';
      }
      var size2 := ReverseHeader(size, header);
      r := Success(size2);
    }

    /** One pass of the first loop of decode: the next shot, and its bit shifted into the size. */
    static method ReadSizeBit(rgen: ShotPicker, ghost ranking: seq<FilteredPixel>, ghost n0: int, ghost bpp: int,
                              simage: StegoImage, ghost hshots: seq<Shot>, ghost header: seq<bool>, size: int)
      returns (r: Result<int>, s: Shot, size': int)
      requires simage.Valid() && PositionsIn(ranking, simage.image)
      requires Picking(rgen, ranking, n0, bpp, |hshots|) && IsRun(hshots, 0, ranking, n0, bpp)
      requires ReadBits(simage.image, hshots) == Success(header) && size == I32(FromMsb(header))
      modifies rgen
      ensures r.Failure? ==> Call(ranking, n0, bpp, |hshots|).Failure?
      ensures r.Success? ==>
                Picking(rgen, ranking, n0, bpp, |hshots| + 1) && IsRun(hshots + [s], 0, ranking, n0, bpp) &&
                ReadBits(simage.image, hshots + [s]) == Success(header + [r.value == 1]) &&
                size' == I32(FromMsb(header + [r.value == 1]))
    {
      r, s := ReadNext(rgen, ranking, n0, bpp, simage, 0, hshots, header);
      size' := size;
      if r.Success? {
        ShiftInMsb(header, r.value == 1);
        size' := ShiftIn(size, r.value == 1);
      }
    }

    /** The second loop of decode: `length` bits into a new retrieved message, which is then closed. */
    static method ReadBody(rgen: ShotPicker, ghost ranking: seq<FilteredPixel>, ghost n0: int, ghost bpp: int,
                           simage: StegoImage, length: int)
      returns (r: Result<seq<Byte>>, ghost bshots: seq<Shot>, ghost body: seq<bool>)
      requires 0 <= length && simage.Valid() && PositionsIn(ranking, simage.image) && Picking(rgen, ranking, n0, bpp, 32)
      modifies rgen
      ensures BodyRead(simage, ranking, n0, bpp, bshots, body)
      ensures r.Failure? ==> r == Failure(Crash) && |bshots| < length &&
                             Call(ranking, n0, bpp, 32 + |bshots|).Failure?
      ensures r.Success? ==> |bshots| == length && r.value == Pack(body)
    {
      var message := new RetrievedMessage();
      bshots := [];
      for k := 0 to length
        invariant |bshots| == k
        invariant Picking(rgen, ranking, n0, bpp, 32 + k)
        invariant message.Valid() && !message.finished
        invariant BodyRead(simage, ranking, n0, bpp, bshots, message.received)
      {
        var next, s := ReadBodyBit(rgen, ranking, n0, bpp, simage, bshots, message);
        if next.Failure? {
          return Failure(Crash), bshots, message.received;
        }
        bshots := bshots + [s];
      }
      message.Close();
      return Success(message.output), bshots, message.received;
    }

    /** One pass of the second loop of decode: the next bit goes to the retrieved message. */
    static method ReadBodyBit(rgen: ShotPicker, ghost ranking: seq<FilteredPixel>, ghost n0: int, ghost bpp: int,
                              simage: StegoImage, ghost bshots: seq<Shot>, message: RetrievedMessage)
      returns (r: Result<()>, s: Shot)
      requires simage.Valid() && PositionsIn(ranking, simage.image) && Picking(rgen, ranking, n0, bpp, 32 + |bshots|)
      requires message.Valid() && !message.finished
      requires BodyRead(simage, ranking, n0, bpp, bshots, message.received)
      modifies rgen, message
      ensures r.Failure? ==> r == Failure(Crash) && Call(ranking, n0, bpp, 32 + |bshots|).Failure? &&
                             message.received == old(message.received)
      ensures r.Success? ==> Picking(rgen, ranking, n0, bpp, 32 + |bshots| + 1) && message.Valid() &&
                             !message.finished && BodyRead(simage, ranking, n0, bpp, bshots + [s], message.received)
    {
      var bit;
      bit, s := ReadNext(rgen, ranking, n0, bpp, simage, 32, bshots, message.received);
      if bit.Failure? {
        return Failure(Crash), s;
      }
      var _ := message.SetNext(bit.value == 1);
      r := Success(());
    }

    /**
     * The body of both loops of decode: the next shot and the bit at it.
     * `shots` are this loop's earlier shots, starting at call lo, and `prev`
     * their bits.
     */
    static method ReadNext(rgen: ShotPicker, ghost ranking: seq<FilteredPixel>, ghost n0: int, ghost bpp: int,
                           simage: StegoImage, ghost lo: nat, ghost shots: seq<Shot>, ghost prev: seq<bool>)
      returns (r: Result<int>, s: Shot)
      requires simage.Valid() && PositionsIn(ranking, simage.image)
      requires Picking(rgen, ranking, n0, bpp, lo + |shots|) && IsRun(shots, lo, ranking, n0, bpp)
      requires ReadBits(simage.image, shots) == Success(prev)
      modifies rgen
      ensures r.Failure? ==> r == Failure(Crash) && Call(ranking, n0, bpp, lo + |shots|).Failure?
      ensures r.Success? ==>
                (r.value == 0 || r.value == 1) &&
                Picking(rgen, ranking, n0, bpp, lo + |shots| + 1) && IsRun(shots + [s], lo, ranking, n0, bpp) &&
                ReadBits(simage.image, shots + [s]) == Success(prev + [r.value == 1])
    {
      var sh := NextShot(rgen, ranking, n0, bpp, lo, shots);
      if sh.Failure? {
        return Failure(Crash), Shot(0, 0, 0, 0);
      }
      s := sh.value;
      CallInImage(ranking, n0, bpp, lo + |shots|, simage.image);
      r := GetPixelBit(simage, s.x, s.y, s.layer, s.bitPos);
      ReadStep(simage.image, shots, prev, s, r.value);
    }

    /** outputSimulation: the map of the pixels encode would write to. */
    method OutputSimulation(message: InsertableMessage, cover: Image) returns (r: Result<Image>)
      requires ValidRange(startBits, endBits) && cover.Valid() && Addressable(cover) && message.Valid()
      modifies message, filter
      ensures r == SimulationSpec(filter.kind, cover, |message.file|, old(message.Delivered()), startBits, endBits)
      ensures r.Failure? && r.error == IllegalArgument ==> unchanged(filter)
      ensures r != Failure(IllegalArgument) ==>
                filter.Valid() && filter.image == Some(cover) && filter.startRange == endBits + 1 && filter.endRange == 8
      ensures !WillFit(message, cover) ==> unchanged(message)
      ensures r.Success? ==> message.Valid() && message.Delivered() == 8 * |message.file|
    {
      if !WillFit(message, cover) {
        SimulationRefused(filter.kind, cover, |message.file|, message.Delivered(), startBits, endBits);
        return Failure(IllegalArgument);
      }
      var rgen, ranking, n0 := NewPicker(cover);
      r := SimulateWith(rgen, ranking, n0, message, cover);
    }

    /** outputSimulation once the message is known to fit and the picker is built. */
    method SimulateWith(rgen: ShotPicker, ghost ranking: seq<FilteredPixel>, ghost n0: int, message: InsertableMessage,
                        cover: Image) returns (r: Result<Image>)
      requires cover.Valid() && message.Valid() && WillFit(message, cover)
      requires PickerOf(cover, startBits, endBits, ranking, n0)
      requires Picking(rgen, ranking, n0, BitsPerPixel(startBits, endBits), 0)
      modifies rgen, message
      ensures r == SimulationOn(ranking, cover, |message.file|, old(message.Delivered()), startBits, endBits)
      ensures r.Success? ==> message.Valid() && !message.NotFinished()
    {
      ghost var delivered := message.Delivered();
      ghost var size := |message.file|;
      ghost var bpp := BitsPerPixel(startBits, endBits);
      var blank := BlackOut(cover);
      var head, shots := MarkHeader(rgen, ranking, n0, bpp, cover, blank);
      if head.Failure? {
        SimulationCrash(cover, size, delivered, startBits, endBits, ranking, n0, shots);
        return Failure(Crash);
      }
      var out, body := MarkBody(rgen, ranking, n0, bpp, cover, shots, head.value, message, size, delivered);
      if out.Failure? {
        SimulationCrash(cover, size, delivered, startBits, endBits, ranking, n0, body);
        return Failure(Crash);
      }
      SimulationSpecIs(cover, size, delivered, startBits, endBits, ranking, n0, body, out.value);
      return Success(out.value);
    }

    /** The first loop of outputSimulation: 32 shots lightened for the length header. */
    static method MarkHeader(rgen: ShotPicker, ghost ranking: seq<FilteredPixel>, ghost n0: int, ghost bpp: int,
                             ghost cover: Image, blank: Image) returns (r: Result<Image>, ghost shots: seq<Shot>)
      requires Picking(rgen, ranking, n0, bpp, 0) && Marked(cover, ranking, n0, bpp, [], blank)
      modifies rgen
      ensures IsRun(shots, 0, ranking, n0, bpp)
      ensures r.Failure? ==> r == Failure(Crash) && |shots| < 32 && Call(ranking, n0, bpp, |shots|).Failure?
      ensures r.Success? ==> |shots| == 32 && Picking(rgen, ranking, n0, bpp, 32) && Marked(cover, ranking, n0, bpp, shots, r.value)
    {
      var image := blank;
      shots := [];
      for i := 0 to 32
        invariant |shots| == i
        invariant Picking(rgen, ranking, n0, bpp, i)
        invariant Marked(cover, ranking, n0, bpp, shots, image)
      {
        var next, s := MarkNext(rgen, ranking, n0, bpp, cover, shots, image);
        if next.Failure? {
          return Failure(Crash), shots;
        }
        shots := shots + [s];
        image := next.value;
      }
      r := Success(image);
    }

    /** The second loop of outputSimulation: one shot per message bit until the message is finished. */
    static method MarkBody(rgen: ShotPicker, ghost ranking: seq<FilteredPixel>, ghost n0: int, ghost bpp: int,
                           ghost cover: Image, ghost shots0: seq<Shot>, image0: Image, message: InsertableMessage,
                           ghost size: nat, ghost delivered: nat) returns (r: Result<Image>, ghost shots: seq<Shot>)
      requires Picking(rgen, ranking, n0, bpp, |shots0|) && Marked(cover, ranking, n0, bpp, shots0, image0)
      requires message.Valid() && |message.file| == size && delivered <= message.Delivered()
      requires |shots0| == 32 + (message.Delivered() - delivered)
      modifies rgen, message
      ensures IsRun(shots, 0, ranking, n0, bpp)
      ensures r.Failure? ==> r == Failure(Crash) && |shots| < 32 + (8 * size - delivered) &&
                             Call(ranking, n0, bpp, |shots|).Failure?
      ensures r.Success? ==> |shots| == 32 + (8 * size - delivered) && Marked(cover, ranking, n0, bpp, shots, r.value)
      ensures r.Success? ==> message.Valid() && !message.NotFinished()
    {
      shots := shots0;
      var image := image0;
      while message.NotFinished()
        invariant message.Valid() && |message.file| == size
        invariant delivered <= message.Delivered() <= 8 * size
        invariant |shots| == 32 + (message.Delivered() - delivered)
        invariant Picking(rgen, ranking, n0, bpp, |shots|)
        invariant Marked(cover, ranking, n0, bpp, shots, image)
        decreases 8 * size - message.Delivered()
      {
        var next, s := MarkNext(rgen, ranking, n0, bpp, cover, shots, image);
        if next.Failure? {
          return Failure(Crash), shots;
        }
        shots := shots + [s];
        image := next.value;
        SkipBit(message);
      }
      r := Success(image);
    }

    /** `message.nextBit()` with the bit unused: one more bit delivered. */
    static method SkipBit(message: InsertableMessage)
      requires message.Valid() && message.NotFinished()
      modifies message
      ensures message.Valid()
      ensures message.Delivered() == old(message.Delivered()) + 1
    {
      var _ := message.NextBit();
    }

    /** One pass of either loop of outputSimulation: the next shot and the lightening of its pixel. */
    static method MarkNext(rgen: ShotPicker, ghost ranking: seq<FilteredPixel>, ghost n0: int, ghost bpp: int,
                           ghost cover: Image, ghost shots: seq<Shot>, image: Image) returns (r: Result<Image>, s: Shot)
      requires Picking(rgen, ranking, n0, bpp, |shots|) && Marked(cover, ranking, n0, bpp, shots, image)
      modifies rgen
      ensures r.Failure? ==> r == Failure(Crash) && Call(ranking, n0, bpp, |shots|).Failure?
      ensures r.Success? ==> Picking(rgen, ranking, n0, bpp, |shots| + 1) &&
                             Marked(cover, ranking, n0, bpp, shots + [s], r.value)
    {
      var sh := NextShot(rgen, ranking, n0, bpp, 0, shots);
      if sh.Failure? {
        return Failure(Crash), Shot(0, 0, 0, 0);
      }
      s := sh.value;
      CallInImage(ranking, n0, bpp, |shots|, cover);
      MarkStep(Blacken(cover), shots, image, s);
      r := Success(SetRGB(image, s.x, s.y, DecreaseDarkness(image.RGB(s.x, s.y))));
    }
  }
}
