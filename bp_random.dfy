/**
 * BPRandom: the shot generator of BattleSteg. It scores every pixel with a
 * filter that sees only the bits above the writable range, sorts the
 * scores, shuffles the run of equal scores around the top tenth, and marks
 * as ships the good neighbours of the top tenth (the "engines"). A shot is
 * then either a free shot anywhere, redrawn until it lands on an unused
 * bit, or -- after a free shot has hit a ship -- a ranged shot near the
 * last hit, until a counter says to move away. An occupancy array
 * (`beenShot[x][y][layer][bit]`) keeps any bit from being used twice.
 */
module BPRandom {
  import opened Basics
  import opened Raster
  import opened Protocol
  import opened JavaRandom
  import opened PRandom
  import opened FilteredPixels
  import opened FPComparator
  import opened Filters
  import FilterFirst
  import HideSeek

  // ----- generateShips: the run of equal scores at the top tenth -----

  /**
   * The first loop of generateShips: from index e, move up while the score
   * equals v; reaching the end of the array leaves the loop.
   */
  function RunEnd(fp: seq<FilteredPixel>, v: int, e: nat): (r: nat)
    requires e < |fp|
    ensures e <= r <= |fp|
    decreases |fp| - e
  {
    if fp[e].value != v then e
    else if e + 1 == |fp| then |fp|
    else RunEnd(fp, v, e + 1)
  }

  /** The second loop: from index c, move down while the score equals w and c > 0. */
  function RunStart(fp: seq<FilteredPixel>, w: int, c: nat): (r: nat)
    requires c < |fp|
    ensures r <= c
    decreases c
  {
    if fp[c].value == w && c > 0 then RunStart(fp, w, c - 1) else c
  }

  /** `fparray.length - topten`: the first index of the top tenth. */
  function TopStart(fp: seq<FilteredPixel>): nat
  {
    |fp| - |fp| / 10
  }

  /**
   * The range [count, countend) that generateShips shuffles, or Crash when
   * the first loop reads `fparray[count + 1]` past the end of the array.
   */
  function TieRange(fp: seq<FilteredPixel>): Result<(nat, nat)>
  {
    var count := TopStart(fp);
    if count + 1 >= |fp| then Failure(Crash)
    else
      var countend := RunEnd(fp, fp[count].value, count + 1);
      Success((RunStart(fp, fp[countend - 1].value, count) + 1, countend))
  }

  /** generateShips reads past the array exactly when the image has fewer than 20 pixels. */
  lemma {:induction false} TieRangeNeedsTwenty(fp: seq<FilteredPixel>)
    ensures TieRange(fp).Success? <==> |fp| >= 20
  {
    var n := |fp|;
    if n >= 20 {
      assert n / 10 >= 2;
    } else {
      assert n / 10 <= 1;
    }
  }

  lemma {:induction false} RunEndFacts(fp: seq<FilteredPixel>, v: int, e: nat)
    requires e < |fp|
    ensures forall k :: e <= k < RunEnd(fp, v, e) ==> fp[k].value == v
    ensures RunEnd(fp, v, e) == |fp| || fp[RunEnd(fp, v, e)].value != v
    decreases |fp| - e
  {
    if fp[e].value == v && e + 1 < |fp| {
      RunEndFacts(fp, v, e + 1);
    }
  }

  lemma {:induction false} RunStartFacts(fp: seq<FilteredPixel>, w: int, c: nat)
    requires c < |fp|
    ensures forall k :: RunStart(fp, w, c) < k <= c ==> fp[k].value == w
    ensures RunStart(fp, w, c) == 0 || fp[RunStart(fp, w, c)].value != w
    decreases c
  {
    if fp[c].value == w && c > 0 {
      RunStartFacts(fp, w, c - 1);
    }
  }

  /**
   * The shuffled range is the run of scores equal to the first score of the
   * top tenth, holding that index: maximal upwards, and downwards stopping
   * only at index 1 (index 0 is never part of it).
   */
  lemma {:induction false} TieRangeIsRun(fp: seq<FilteredPixel>)
    requires TieRange(fp).Success?
    ensures var (s, e) := TieRange(fp).value;
            var v := fp[TopStart(fp)].value;
            1 <= s <= TopStart(fp) < e <= |fp| &&
            (forall k :: s <= k < e ==> fp[k].value == v) &&
            (e == |fp| || fp[e].value != v) &&
            (s == 1 || fp[s - 1].value != v)
  {
    var count := TopStart(fp);
    var v := fp[count].value;
    var countend := RunEnd(fp, v, count + 1);
    RunEndFacts(fp, v, count + 1);
    var w := fp[countend - 1].value;
    assert w == v;
    RunStartFacts(fp, w, count);
  }

  // ----- shufflePixels -----

  /** `array[i]` and `array[j]` exchanged. */
  function Swap<T>(s: seq<T>, i: nat, j: nat): (r: seq<T>)
    requires i < |s| && j < |s|
    ensures |r| == |s|
  {
    s[i := s[j]][j := s[i]]
  }

  /** The pairs (i, j), both below n, that a run of k passes swaps (offsets into the range). */
  ghost predicate PairsBelow(ps: seq<(int, int)>, n: int)
  {
    forall m :: 0 <= m < |ps| ==> 0 <= ps[m].0 < n && 0 <= ps[m].1 < n
  }

  /**
   * The two draws of one pass, `nextInt(n)` twice, with the generator state
   * after them, behind `hold` levels of recursion: every `hold` gives the
   * same draws (PassAnyHold), and a proof that does not know `hold` cannot
   * unfold the generator's arithmetic.
   */
  function Pass(g: State, n: int, hold: nat): (r: Result<(int, int, State)>)
    requires 0 < n < TWO_31
    ensures r.Success? ==> 0 <= r.value.0 < n && 0 <= r.value.1 < n
    ensures r.Failure? ==> r.error == Hang
    decreases hold
  {
    if hold > 0 then Pass(g, n, hold - 1)
    else
      match NextIntSpec(g, n)
      case Failure(e) => Failure(e)
      case Success(da) =>
        match NextIntSpec(da.state, n)
        case Failure(e) => Failure(e)
        case Success(db) => Success((da.value, db.value, db.state))
  }

  /**
   * The pairs that k passes draw from generator state g on a range of n
   * entries, in order. The draws do not depend on the array, so the loop of
   * shufflePixels is these draws followed by the swaps (ShuffleFrom). Each
   * pass is held by k, which only keeps it folded (PassAnyHold).
   */
  function SwapPairs(g: State, n: int, k: nat): (r: Result<seq<(int, int)>>)
    requires 0 < n < TWO_31
    ensures r.Success? ==> |r.value| == k && PairsBelow(r.value, n)
    ensures r.Failure? ==> r.error == Hang
    decreases k
  {
    if k == 0 then Success([])
    else
      match Pass(g, n, k)
      case Failure(e) => Failure(e)
      case Success(p) =>
        match SwapPairs(p.2, n, k - 1)
        case Failure(e) => Failure(e)
        case Success(rest) => Success([(p.0, p.1)] + rest)
  }

  /** The swaps of ps, in order, on the range of n entries from start. */
  function ApplySwaps(s: seq<FilteredPixel>, start: nat, n: nat, ps: seq<(int, int)>): (r: seq<FilteredPixel>)
    requires start + n <= |s| && PairsBelow(ps, n)
    ensures |r| == |s|
    decreases |ps|
  {
    if ps == [] then s
    else ApplySwaps(Swap(s, start + ps[0].0, start + ps[0].1), start, n, ps[1..])
  }

  /**
   * The last k passes of shufflePixels' loop on [start, end) from generator
   * state g: each pass draws two offsets below end - start and swaps the two
   * entries.
   */
  function ShuffleFrom(s: seq<FilteredPixel>, start: nat, end: nat, g: State, k: nat): (r: Result<seq<FilteredPixel>>)
    requires start <= end <= |s| && end - start < TWO_31
    ensures r.Success? ==> |r.value| == |s|
  {
    if k == 0 then Success(s)
    else if start == end then Failure(Crash)
    else
      match SwapPairs(g, end - start, k)
      case Failure(e) => Failure(e)
      case Success(ps) => Success(ApplySwaps(s, start, end - start, ps))
  }

  /** shufflePixels(array, start, end): end - start passes of a `new Random(0)`. */
  function Shuffle(s: seq<FilteredPixel>, start: nat, end: nat): Result<seq<FilteredPixel>>
    requires start <= end <= |s| && end - start < TWO_31
  {
    ShuffleFrom(s, start, end, Scramble(0), end - start)
  }

  /**
   * The last k passes of the loop from generator state g, behind `hold`
   * levels of recursion. A proof that knows nothing of `hold` cannot unfold
   * it, so the loop of shufflePixels reasons about whole passes only
   * (PassesAre, ShuffleFromDraws).
   */
  function Passes(s: seq<FilteredPixel>, start: nat, end: nat, g: State, k: nat, hold: nat): Result<seq<FilteredPixel>>
    requires start <= end <= |s| && end - start < TWO_31
    decreases hold
  {
    if hold > 0 then Passes(s, start, end, g, k, hold - 1) else ShuffleFrom(s, start, end, g, k)
  }

  lemma {:induction false} PassesAre(s: seq<FilteredPixel>, start: nat, end: nat, g: State, k: nat, hold: nat)
    requires start <= end <= |s| && end - start < TWO_31
    ensures Passes(s, start, end, g, k, hold) == ShuffleFrom(s, start, end, g, k)
    decreases hold
  {
    if hold > 0 {
      PassesAre(s, start, end, g, k, hold - 1);
    }
  }

  /** The shuffle is all its passes from the state of `new Random(0)`. */
  lemma {:induction false} ShuffleIsPasses(s: seq<FilteredPixel>, start: nat, end: nat, hold: nat)
    requires start <= end <= |s| && end - start < TWO_31
    ensures Shuffle(s, start, end) == Passes(s, start, end, Scramble(0), end - start, hold)
  {
    PassesAre(s, start, end, Scramble(0), end - start, hold);
  }

  /** With no pass left, the list is as it is. */
  lemma {:induction false} PassesDone(s: seq<FilteredPixel>, start: nat, end: nat, g: State, hold: nat)
    requires start <= end <= |s| && end - start < TWO_31
    ensures Passes(s, start, end, g, 0, hold) == Success(s)
  {
    PassesAre(s, start, end, g, 0, hold);
  }

  /** However deep the hold, a pass makes the same two draws. */
  lemma {:induction false} PassAnyHold(g: State, n: int, hold: nat)
    requires 0 < n < TWO_31
    ensures Pass(g, n, hold) == Pass(g, n, 1)
    decreases hold
  {
    if hold > 1 {
      PassAnyHold(g, n, hold - 1);
    }
  }

  /** One pass of the loop: the two draws of `nextInt(end - start)`, then the swap. */
  lemma {:induction false} ShuffleFromDraws(s: seq<FilteredPixel>, start: nat, end: nat, g: State, k: nat, hold: nat,
                                            a: int, b: int, g': State)
    requires start < end <= |s| && end - start < TWO_31 && k > 0
    requires Pass(g, end - start, hold) == Success((a, b, g'))
    ensures Passes(s, start, end, g, k, hold) == Passes(Swap(s, start + a, start + b), start, end, g', k - 1, hold)
  {
    ShuffleFromStep(s, start, end, g, k, hold);
    var s' := Swap(s, start + a, start + b);
    assert ShuffleFrom(s, start, end, g, k) == ShuffleFrom(s', start, end, g', k - 1);
    PassesAre(s, start, end, g, k, hold);
    PassesAre(s', start, end, g', k - 1, hold);
  }

  /** One pass of the loop whose first or second draw gives up. */
  lemma {:induction false} ShuffleFromDrawFails(s: seq<FilteredPixel>, start: nat, end: nat, g: State, k: nat, hold: nat)
    requires start < end <= |s| && end - start < TWO_31 && k > 0
    requires Pass(g, end - start, hold).Failure?
    ensures Passes(s, start, end, g, k, hold) == Failure(Pass(g, end - start, hold).error)
  {
    ShuffleFromStepFails(s, start, end, g, k, hold);
    PassesAre(s, start, end, g, k, hold);
  }

  /** One pass of the loop: when its two draws give up, the shuffle hangs. */
  lemma {:induction false} ShuffleFromStepFails(s: seq<FilteredPixel>, start: nat, end: nat, g: State, k: nat, hold: nat)
    requires start < end <= |s| && end - start < TWO_31 && k > 0
    requires Pass(g, end - start, hold).Failure?
    ensures ShuffleFrom(s, start, end, g, k) == Failure(Hang)
  {
    PassAnyHold(g, end - start, hold);
    PassAnyHold(g, end - start, k);
    assert SwapPairs(g, end - start, k).Failure?;
  }

  /** One pass of the loop: the two draws, then the swap, then the remaining passes. */
  lemma {:induction false} ShuffleFromStep(s: seq<FilteredPixel>, start: nat, end: nat, g: State, k: nat, hold: nat)
    requires start < end <= |s| && end - start < TWO_31 && k > 0
    requires Pass(g, end - start, hold).Success?
    ensures var p := Pass(g, end - start, hold).value;
            ShuffleFrom(s, start, end, g, k) == ShuffleFrom(Swap(s, start + p.0, start + p.1), start, end, p.2, k - 1)
  {
    var n := end - start;
    PassAnyHold(g, n, hold);
    PassAnyHold(g, n, k);
    var p := Pass(g, n, k).value;
    var later := SwapPairs(p.2, n, k - 1);
    if later.Success? {
      var t := Swap(s, start + p.0, start + p.1);
      var ps := [(p.0, p.1)] + later.value;
      assert SwapPairs(g, n, k) == Success(ps);
      assert ps[1..] == later.value;
      assert ApplySwaps(s, start, n, ps) == ApplySwaps(t, start, n, later.value);
    } else {
      assert SwapPairs(g, n, k).Failure?;
    }
  }

  /** A shuffle of at least one pass fails exactly when the generator gives up, and then it hangs. */
  lemma {:induction false} ShuffleFromFails(s: seq<FilteredPixel>, start: nat, end: nat, g: State, k: nat)
    requires start <= end <= |s| && end - start < TWO_31 && (k > 0 ==> start < end)
    ensures k == 0 ==> ShuffleFrom(s, start, end, g, k) == Success(s)
    ensures k > 0 ==> (ShuffleFrom(s, start, end, g, k).Failure? <==> SwapPairs(g, end - start, k).Failure?)
    ensures ShuffleFrom(s, start, end, g, k).Failure? ==> ShuffleFrom(s, start, end, g, k).error == Hang
  {
  }

  /** The swaps keep the entries of the array: the result is a permutation. */
  lemma {:induction false} ApplySwapsPermutes(s: seq<FilteredPixel>, start: nat, n: nat, ps: seq<(int, int)>)
    requires start + n <= |s| && PairsBelow(ps, n)
    ensures multiset(ApplySwaps(s, start, n, ps)) == multiset(s)
    decreases |ps|
  {
    if ps != [] {
      var t := Swap(s, start + ps[0].0, start + ps[0].1);
      ApplySwapsPermutes(t, start, n, ps[1..]);
      SwapPermutes(s, start + ps[0].0, start + ps[0].1);
    }
  }

  /** The swaps move nothing outside [start, start + n). */
  lemma {:induction false} ApplySwapsOutside(s: seq<FilteredPixel>, start: nat, n: nat, ps: seq<(int, int)>)
    requires start + n <= |s| && PairsBelow(ps, n)
    ensures forall i :: 0 <= i < |s| && !(start <= i < start + n) ==> ApplySwaps(s, start, n, ps)[i] == s[i]
    decreases |ps|
  {
    if ps != [] {
      var t := Swap(s, start + ps[0].0, start + ps[0].1);
      ApplySwapsOutside(t, start, n, ps[1..]);
    }
  }

  /** A range whose entries all score v still does after the swaps. */
  lemma {:induction false} ApplySwapsRun(s: seq<FilteredPixel>, start: nat, n: nat, ps: seq<(int, int)>, v: int)
    requires start + n <= |s| && PairsBelow(ps, n)
    requires forall i :: start <= i < start + n ==> s[i].value == v
    ensures forall i :: start <= i < start + n ==> ApplySwaps(s, start, n, ps)[i].value == v
    decreases |ps|
  {
    if ps != [] {
      var t := Swap(s, start + ps[0].0, start + ps[0].1);
      ApplySwapsRun(t, start, n, ps[1..], v);
    }
  }

  /** A shuffle that succeeds is a list of swaps inside [start, end) applied to the list. */
  lemma ShuffleSwaps(s: seq<FilteredPixel>, start: nat, end: nat, g: State, k: nat) returns (ps: seq<(int, int)>)
    requires start <= end <= |s| && end - start < TWO_31 && ShuffleFrom(s, start, end, g, k).Success?
    ensures PairsBelow(ps, end - start)
    ensures ShuffleFrom(s, start, end, g, k).value == ApplySwaps(s, start, end - start, ps)
  {
    if k > 0 {
      ps := SwapPairs(g, end - start, k).value;
    } else {
      ps := [];
    }
  }

  /** Any number of passes is a permutation that moves nothing outside [start, end) and keeps a run of equal scores. */
  lemma {:induction false} ShuffleFromFacts(s: seq<FilteredPixel>, start: nat, end: nat, g: State, k: nat, v: int)
    requires start <= end <= |s| && end - start < TWO_31 && ShuffleFrom(s, start, end, g, k).Success?
    requires forall i :: start <= i < end ==> s[i].value == v
    ensures multiset(ShuffleFrom(s, start, end, g, k).value) == multiset(s)
    ensures forall i :: 0 <= i < |s| && !(start <= i < end) ==> ShuffleFrom(s, start, end, g, k).value[i] == s[i]
    ensures forall i :: start <= i < end ==> ShuffleFrom(s, start, end, g, k).value[i].value == v
  {
    var ps := ShuffleSwaps(s, start, end, g, k);
    SwapsFacts(s, start, end, ps, v);
    RunFacts(s, ShuffleFrom(s, start, end, g, k).value, ApplySwaps(s, start, end - start, ps), start, end, v);
  }

  /** The facts of ShuffleFromFacts for a list of swaps. */
  lemma SwapsFacts(s: seq<FilteredPixel>, start: nat, end: nat, ps: seq<(int, int)>, v: int)
    requires start <= end <= |s| && PairsBelow(ps, end - start)
    requires forall i :: start <= i < end ==> s[i].value == v
    ensures RunShuffled(s, ApplySwaps(s, start, end - start, ps), start, end, v)
  {
    var r := ApplySwaps(s, start, end - start, ps);
    ApplySwapsPermutes(s, start, end - start, ps);
    ApplySwapsOutside(s, start, end - start, ps);
    ApplySwapsRun(s, start, end - start, ps, v);
    assert forall i :: 0 <= i < |s| && !(start <= i < end) ==> r[i] == s[i];
    assert forall i :: start <= i < end <= |r| ==> r[i].value == v;
  }

  /** r is s with [start, end), a run of score v, rearranged. */
  ghost predicate RunShuffled(s: seq<FilteredPixel>, r: seq<FilteredPixel>, start: nat, end: nat, v: int)
  {
    |r| == |s| && multiset(r) == multiset(s) &&
    (forall i :: 0 <= i < |s| && !(start <= i < end) ==> r[i] == s[i]) &&
    (forall i :: start <= i < end <= |r| ==> r[i].value == v)
  }

  lemma RunFacts(s: seq<FilteredPixel>, r: seq<FilteredPixel>, q: seq<FilteredPixel>, start: nat, end: nat, v: int)
    requires r == q && RunShuffled(s, q, start, end, v) && end <= |s|
    ensures multiset(r) == multiset(s)
    ensures forall i :: 0 <= i < |s| && !(start <= i < end) ==> r[i] == s[i]
    ensures forall i :: start <= i < end ==> r[i].value == v
  {
  }

  /** The shuffle is a permutation that moves nothing outside [start, end) and keeps a run of equal scores. */
  lemma {:induction false} ShuffleFacts(s: seq<FilteredPixel>, start: nat, end: nat, v: int)
    requires start <= end <= |s| && end - start < TWO_31 && Shuffle(s, start, end).Success?
    requires forall i :: start <= i < end ==> s[i].value == v
    ensures multiset(Shuffle(s, start, end).value) == multiset(s)
    ensures forall i :: 0 <= i < |s| && !(start <= i < end) ==> Shuffle(s, start, end).value[i] == s[i]
    ensures forall i :: start <= i < end ==> Shuffle(s, start, end).value[i].value == v
  {
    ShuffleFromFacts(s, start, end, Scramble(0), end - start, v);
  }

  lemma {:induction false} SwapPermutes<T>(s: seq<T>, i: nat, j: nat)
    requires i < |s| && j < |s|
    ensures multiset(Swap(s, i, j)) == multiset(s)
  {
    var t := s[i := s[j]];
    assert multiset(t) == multiset(s) - multiset{s[i]} + multiset{s[j]};
    assert multiset(t[j := s[i]]) == multiset(t) - multiset{t[j]} + multiset{s[i]};
  }

  /** Values never go down along the list. */
  ghost predicate ValueOrdered(s: seq<FilteredPixel>)
  {
    forall i, j :: 0 <= i < j < |s| ==> s[i].value <= s[j].value
  }

  lemma {:induction false} SortedValueOrdered(s: seq<FilteredPixel>)
    requires Sorted(s)
    ensures ValueOrdered(s)
  {
    forall i, j | 0 <= i < j < |s|
      ensures s[i].value <= s[j].value
    {
      assert !LexLess(s[j], s[i]);
    }
  }

  lemma {:induction false} OrderedAt(s: seq<FilteredPixel>, i: nat, j: nat)
    requires ValueOrdered(s) && i <= j < |s|
    ensures s[i].value <= s[j].value
  {
    if i < j {
      assert s[i].value <= s[j].value;
    }
  }

  /**
   * Permuting a range of equal scores among itself keeps the list in
   * ascending order of score.
   */
  lemma {:induction false} ShuffleKeepsOrder(s: seq<FilteredPixel>, r: seq<FilteredPixel>, start: nat, end: nat, v: int)
    requires start <= end <= |s| == |r| && ValueOrdered(s)
    requires forall k :: start <= k < end ==> s[k].value == v
    requires forall i :: 0 <= i < |s| && !(start <= i < end) ==> r[i] == s[i]
    requires forall i :: start <= i < end ==> r[i].value == v
    ensures ValueOrdered(r)
  {
    forall i, j | 0 <= i < j < |r|
      ensures r[i].value <= r[j].value
    {
      if start <= i < end && !(start <= j < end) {
        assert s[start].value <= s[j].value;
      } else if !(start <= i < end) && start <= j < end {
        assert s[i].value <= s[end - 1].value;
      }
    }
  }

  // ----- the scored list after the shuffle -----

  /**
   * `Math.abs(filter.getValue(x, y))`, the score of FilterFirst, held behind
   * one level of recursion (`Strength(..., 1)`), which puts the filter's
   * arithmetic one unfolding further from each use; StrengthIsScore states
   * the equality.
   */
  function Strength(kind: FilterKind, img: Image, mask: bv32, x: int, y: int, hold: nat): nat
    requires img.Valid() && img.InBounds(x, y)
    decreases hold
  {
    if hold > 0 then Strength(kind, img, mask, x, y, hold - 1) else FilterFirst.Score(kind, img, mask, x, y)
  }

  lemma {:induction false} StrengthIsScore(kind: FilterKind, img: Image, mask: bv32, x: int, y: int)
    requires img.Valid() && img.InBounds(x, y)
    ensures Strength(kind, img, mask, x, y, 1) == FilterFirst.Score(kind, img, mask, x, y)
  {
  }

  /** Every entry names a pixel of the image and carries that pixel's score. */
  ghost predicate Truthful(s: seq<FilteredPixel>, kind: FilterKind, img: Image, mask: bv32)
    requires img.Valid()
  {
    forall i :: 0 <= i < |s| ==>
      img.InBounds(s[i].x, s[i].y) && s[i].value == Strength(kind, img, mask, s[i].x, s[i].y, 1)
  }

  lemma {:induction false} ScoresTruthful(kind: FilterKind, img: Image, mask: bv32)
    requires img.Valid()
    ensures Truthful(FilterFirst.Scores(kind, img, mask), kind, img, mask)
  {
    var s := FilterFirst.Scores(kind, img, mask);
    forall i | 0 <= i < |s|
      ensures img.InBounds(s[i].x, s[i].y) && s[i].value == Strength(kind, img, mask, s[i].x, s[i].y, 1)
    {
      FilterFirst.ScoresAt(kind, img, mask, |s|, i);
      FilterFirst.EntryIs(kind, img, mask, i);
      StrengthIsScore(kind, img, mask, s[i].x, s[i].y);
    }
  }

  /** A permutation of truthful entries is truthful. */
  lemma {:induction false} PermutedTruthful(s: seq<FilteredPixel>, r: seq<FilteredPixel>, kind: FilterKind, img: Image, mask: bv32)
    requires img.Valid() && multiset(r) == multiset(s) && Truthful(s, kind, img, mask)
    ensures Truthful(r, kind, img, mask)
  {
    forall i | 0 <= i < |r|
      ensures img.InBounds(r[i].x, r[i].y) && r[i].value == Strength(kind, img, mask, r[i].x, r[i].y, 1)
    {
      assert r[i] in multiset(s);
      var k :| 0 <= k < |s| && s[k] == r[i];
    }
  }

  /**
   * generateShips up to the shuffle: the sorted scores (the ranking of
   * FilterFirst, under the mask of bits end+1..8), with the run of equal
   * scores around the top tenth shuffled. An image of 2^31 pixels or more
   * cannot be held in one Java array: the allocation or an index fails.
   */
  function ShuffledRanking(kind: FilterKind, img: Image, end: int): (r: Result<seq<FilteredPixel>>)
    requires img.Valid()
    ensures r.Success? ==> |r.value| == img.width * img.height
  {
    if !FilterFirst.Addressable(img) then Failure(Crash)
    else
      var fp := FilterFirst.Ranking(kind, img, end);
      match TieRange(fp)
      case Failure(e) => Failure(e)
      case Success((s, e)) =>
        TieRangeIsRun(fp);
        Shuffle(fp, s, e)
  }

  /** The pieces of a successful ShuffledRanking: the sorted scores, the tie range and the shuffle. */
  lemma {:induction false} ShuffledRankingParts(kind: FilterKind, img: Image, end: int)
    returns (ranking: seq<FilteredPixel>, s: nat, e: nat)
    requires img.Valid() && ShuffledRanking(kind, img, end).Success?
    ensures ranking == FilterFirst.Ranking(kind, img, end) && |ranking| >= 20
    ensures TieRange(ranking) == Success((s, e)) && s <= e <= |ranking| && e - s < TWO_31
    ensures forall k :: s <= k < e ==> ranking[k].value == ranking[TopStart(ranking)].value
    ensures Shuffle(ranking, s, e) == ShuffledRanking(kind, img, end)
  {
    ranking := FilterFirst.Ranking(kind, img, end);
    TieRangeNeedsTwenty(ranking);
    TieRangeIsRun(ranking);
    s, e := TieRange(ranking).value.0, TieRange(ranking).value.1;
  }

  /**
   * The shuffled list is a permutation of the sorted scores that moves only
   * the run of equal scores around the top tenth.
   */
  lemma {:induction false} ShuffledRankingPermutes(kind: FilterKind, img: Image, end: int)
    requires img.Valid() && ShuffledRanking(kind, img, end).Success?
    ensures var ranking := FilterFirst.Ranking(kind, img, end);
            TieRange(ranking).Success? &&
            multiset(ShuffledRanking(kind, img, end).value) == multiset(ranking) &&
            forall i :: 0 <= i < |ranking| && !(TieRange(ranking).value.0 <= i < TieRange(ranking).value.1) ==>
              ShuffledRanking(kind, img, end).value[i] == ranking[i]
  {
    var ranking, s, e := ShuffledRankingParts(kind, img, end);
    ShuffleFacts(ranking, s, e, ranking[TopStart(ranking)].value);
  }

  /** The shuffled list is still in ascending order of score. */
  lemma {:induction false} ShuffledRankingOrdered(kind: FilterKind, img: Image, end: int)
    requires img.Valid() && ShuffledRanking(kind, img, end).Success?
    ensures ValueOrdered(ShuffledRanking(kind, img, end).value)
  {
    var ranking, s, e := ShuffledRankingParts(kind, img, end);
    var v := ranking[TopStart(ranking)].value;
    var fp := ShuffledRanking(kind, img, end).value;
    ShuffleFacts(ranking, s, e, v);
    FilterFirst.RankingSorted(kind, img, end);
    SortedValueOrdered(ranking);
    ShuffleKeepsOrder(ranking, fp, s, e, v);
  }

  /** Every entry of the shuffled list is a pixel of the image with its score, and there are at least 20. */
  lemma {:induction false} ShuffledRankingTruthful(kind: FilterKind, img: Image, end: int)
    requires img.Valid() && ShuffledRanking(kind, img, end).Success?
    ensures |ShuffledRanking(kind, img, end).value| >= 20
    ensures Truthful(ShuffledRanking(kind, img, end).value, kind, img, FilterFirst.PickerMask(end))
  {
    var mask := FilterFirst.PickerMask(end);
    var ranking, s, e := ShuffledRankingParts(kind, img, end);
    ShuffleFacts(ranking, s, e, ranking[TopStart(ranking)].value);
    ScoresTruthful(kind, img, mask);
    PermutedTruthful(FilterFirst.Scores(kind, img, mask), ranking, kind, img, mask);
    PermutedTruthful(ranking, ShuffledRanking(kind, img, end).value, kind, img, mask);
  }

  /** The shuffled list names pixels of the image. */
  lemma {:induction false} ShuffledRankingIn(kind: FilterKind, img: Image, end: int)
    requires img.Valid() && ShuffledRanking(kind, img, end).Success?
    ensures |ShuffledRanking(kind, img, end).value| >= 20
    ensures FilterFirst.PositionsIn(ShuffledRanking(kind, img, end).value, img)
  {
    ShuffledRankingTruthful(kind, img, end);
  }

  // ----- the ships -----

  /** A pixel, as an index of `mShips[x][y]`. */
  type Cell = (int, int)

  /** The neighbours of (x, y) that lie in the image: left, right, below and above. */
  function Around(img: Image, x: int, y: int): (r: set<Cell>)
    requires img.Valid() && img.InBounds(x, y)
    ensures forall c :: c in r ==> img.InBounds(c.0, c.1)
  {
    (if x > 0 then {(x - 1, y)} else {}) +
    (if x < img.width - 1 then {(x + 1, y)} else {}) +
    (if y < img.height - 1 then {(x, y + 1)} else {}) +
    (if y > 0 then {(x, y - 1)} else {})
  }

  /** The neighbours of an engine at (x, y) that become ships: those scoring at least the median. */
  function Escorts(kind: FilterKind, img: Image, mask: bv32, median: int, x: int, y: int): set<Cell>
    requires img.Valid() && img.InBounds(x, y)
  {
    set c | c in Around(img, x, y) && Strength(kind, img, mask, c.0, c.1, 1) >= median
  }

  /**
   * The ships one engine at (x, y) adds: its escorts, and the engine itself
   * when it has at least one.
   */
  function EngineShips(kind: FilterKind, img: Image, mask: bv32, median: int, x: int, y: int): set<Cell>
    requires img.Valid() && img.InBounds(x, y)
  {
    var found := Escorts(kind, img, mask, median, x, y);
    if found == {} then {} else found + {(x, y)}
  }

  /** One neighbour check of generateShips: c when it lies in the image and scores at least the median. */
  function Side(kind: FilterKind, img: Image, mask: bv32, median: int, c: Cell, inside: bool): set<Cell>
    requires img.Valid() && (inside ==> img.InBounds(c.0, c.1))
  {
    if inside && Strength(kind, img, mask, c.0, c.1, 1) >= median then {c} else {}
  }

  /** The escorts are what the four neighbour checks of generateShips find, one side after the other. */
  lemma {:induction false} EscortsBySide(kind: FilterKind, img: Image, mask: bv32, median: int, x: int, y: int)
    requires img.Valid() && img.InBounds(x, y)
    ensures Escorts(kind, img, mask, median, x, y) ==
            Side(kind, img, mask, median, (x - 1, y), x > 0) +
            Side(kind, img, mask, median, (x + 1, y), x < img.width - 1) +
            Side(kind, img, mask, median, (x, y + 1), y < img.height - 1) +
            Side(kind, img, mask, median, (x, y - 1), y > 0)
  {
    forall c {
      EscortBySide(kind, img, mask, median, x, y, c);
    }
  }

  lemma {:induction false} EscortBySide(kind: FilterKind, img: Image, mask: bv32, median: int, x: int, y: int, c: Cell)
    requires img.Valid() && img.InBounds(x, y)
    ensures c in Escorts(kind, img, mask, median, x, y) <==>
            c in Side(kind, img, mask, median, (x - 1, y), x > 0) +
                 Side(kind, img, mask, median, (x + 1, y), x < img.width - 1) +
                 Side(kind, img, mask, median, (x, y + 1), y < img.height - 1) +
                 Side(kind, img, mask, median, (x, y - 1), y > 0)
  {
    AroundAt(img, x, y, c);
    SideAt(kind, img, mask, median, (x - 1, y), x > 0, c);
    SideAt(kind, img, mask, median, (x + 1, y), x < img.width - 1, c);
    SideAt(kind, img, mask, median, (x, y + 1), y < img.height - 1, c);
    SideAt(kind, img, mask, median, (x, y - 1), y > 0, c);
  }

  lemma {:induction false} AroundAt(img: Image, x: int, y: int, c: Cell)
    requires img.Valid() && img.InBounds(x, y)
    ensures c in Around(img, x, y) <==>
            (c == (x - 1, y) && x > 0) || (c == (x + 1, y) && x < img.width - 1) ||
            (c == (x, y + 1) && y < img.height - 1) || (c == (x, y - 1) && y > 0)
  {
  }

  lemma {:induction false} SideAt(kind: FilterKind, img: Image, mask: bv32, median: int, c': Cell, inside: bool, c: Cell)
    requires img.Valid() && (inside ==> img.InBounds(c'.0, c'.1))
    ensures c in Side(kind, img, mask, median, c', inside) <==>
            c == c' && inside && Strength(kind, img, mask, c'.0, c'.1, 1) >= median
  {
  }

  /** The union of the first n sets. */
  function Union(sets: seq<set<Cell>>, n: nat): set<Cell>
    requires n <= |sets|
  {
    if n == 0 then {} else Union(sets, n - 1) + sets[n - 1]
  }

  /** A cell of the union lies in one of the sets. */
  lemma {:induction false} UnionWitness(sets: seq<set<Cell>>, n: nat, c: Cell) returns (k: nat)
    requires n <= |sets| && c in Union(sets, n)
    ensures k < n && c in sets[k]
  {
    if c in Union(sets, n - 1) {
      k := UnionWitness(sets, n - 1, c);
    } else {
      k := n - 1;
    }
  }

  /** The ships each engine adds, engine by engine. */
  function Fleets(kind: FilterKind, img: Image, mask: bv32, median: int, engines: seq<FilteredPixel>)
    : (f: seq<set<Cell>>)
    requires img.Valid() && FilterFirst.PositionsIn(engines, img)
    ensures |f| == |engines|
    ensures forall k :: 0 <= k < |engines| ==> f[k] == EngineShips(kind, img, mask, median, engines[k].x, engines[k].y)
  {
    seq(|engines|, k requires 0 <= k < |engines| => EngineShips(kind, img, mask, median, engines[k].x, engines[k].y))
  }

  /** The engines: the top tenth of the shuffled list, best first (`engines[i - 1] = fparray[length - i]`). */
  function Engines(fp: seq<FilteredPixel>): (e: seq<FilteredPixel>)
    ensures |e| == |fp| / 10
    ensures forall k :: 0 <= k < |fp| / 10 ==> e[k] == fp[|fp| - 1 - k]
  {
    seq(|fp| / 10, k requires 0 <= k < |fp| / 10 => fp[|fp| - 1 - k])
  }

  /** The median score, `fparray[length / 2]`. */
  function Median(fp: seq<FilteredPixel>): int
    requires |fp| >= 1
  {
    fp[|fp| / 2].value
  }

  /** The ships generateShips marks, given the shuffled list. */
  function ShipsOf(kind: FilterKind, img: Image, end: int, fp: seq<FilteredPixel>): set<Cell>
    requires img.Valid() && |fp| >= 1 && FilterFirst.PositionsIn(fp, img)
  {
    var engines := Engines(fp);
    assert FilterFirst.PositionsIn(engines, img) by {
      forall k | 0 <= k < |engines|
        ensures img.InBounds(engines[k].x, engines[k].y)
      {
        assert engines[k] == fp[|fp| - 1 - k];
      }
    }
    Union(Fleets(kind, img, FilterFirst.PickerMask(end), Median(fp), engines), |engines|)
  }

  /** mShips as generateShips leaves it, or the failure that ends the constructor. */
  function ShipsSpec(kind: FilterKind, img: Image, end: int): Result<set<Cell>>
    requires img.Valid()
  {
    match ShuffledRanking(kind, img, end)
    case Failure(e) => Failure(e)
    case Success(fp) =>
      ShuffledRankingIn(kind, img, end);
      Success(ShipsOf(kind, img, end, fp))
  }

  /** A ship may stand on cell c: a pixel of the image that scores at least the median. */
  ghost predicate Afloat(kind: FilterKind, img: Image, mask: bv32, median: int, c: Cell)
    requires img.Valid()
  {
    img.InBounds(c.0, c.1) && Strength(kind, img, mask, c.0, c.1, 1) >= median
  }

  /** A ship of one engine lies in the image and scores at least the median, given that the engine does. */
  lemma {:induction false} EngineShipGood(kind: FilterKind, img: Image, mask: bv32, median: int, x: int, y: int, c: Cell)
    requires img.Valid() && img.InBounds(x, y) && Afloat(kind, img, mask, median, (x, y))
    requires c in EngineShips(kind, img, mask, median, x, y)
    ensures Afloat(kind, img, mask, median, c)
  {
    if c != (x, y) {
      assert c in Escorts(kind, img, mask, median, x, y);
    }
  }

  /** Every ship is a pixel of the image whose score is at least the median score. */
  lemma {:induction false} ShipsAboveMedian(kind: FilterKind, img: Image, end: int)
    requires img.Valid() && ShipsSpec(kind, img, end).Success?
    ensures ShuffledRanking(kind, img, end).Success?
    ensures var fp := ShuffledRanking(kind, img, end).value;
            forall c :: c in ShipsSpec(kind, img, end).value ==> Afloat(kind, img, FilterFirst.PickerMask(end), Median(fp), c)
  {
    var fp := ShuffledRanking(kind, img, end).value;
    var mask := FilterFirst.PickerMask(end);
    ShuffledRankingIn(kind, img, end);
    EnginesAboveMedian(kind, img, end, fp);
    assert ShipsSpec(kind, img, end).value == ShipsOf(kind, img, end, fp);
    forall c | c in ShipsSpec(kind, img, end).value
      ensures Afloat(kind, img, mask, Median(fp), c)
    {
      var fleets := Fleets(kind, img, mask, Median(fp), Engines(fp));
      var k := UnionWitness(fleets, |fp| / 10, c);
      EngineShipGood(kind, img, mask, Median(fp), Engines(fp)[k].x, Engines(fp)[k].y, c);
    }
  }

  /** The engines are the top tenth of a list in ascending order: none scores below the median. */
  lemma {:induction false} EnginesAboveMedian(kind: FilterKind, img: Image, end: int, fp: seq<FilteredPixel>)
    requires img.Valid() && ShuffledRanking(kind, img, end) == Success(fp)
    ensures |fp| >= 20 && FilterFirst.PositionsIn(Engines(fp), img)
    ensures forall k :: 0 <= k < |fp| / 10 ==>
              Afloat(kind, img, FilterFirst.PickerMask(end), Median(fp), (Engines(fp)[k].x, Engines(fp)[k].y))
  {
    ShuffledRankingTruthful(kind, img, end);
    ShuffledRankingOrdered(kind, img, end);
    TopTenthAfloat(kind, img, FilterFirst.PickerMask(end), fp);
  }

  /** In a truthful list in ascending order of score, the top tenth scores at least the median. */
  lemma {:induction false} TopTenthAfloat(kind: FilterKind, img: Image, mask: bv32, fp: seq<FilteredPixel>)
    requires img.Valid() && |fp| >= 20 && Truthful(fp, kind, img, mask) && ValueOrdered(fp)
    ensures FilterFirst.PositionsIn(Engines(fp), img)
    ensures forall k :: 0 <= k < |fp| / 10 ==> Afloat(kind, img, mask, Median(fp), (Engines(fp)[k].x, Engines(fp)[k].y))
  {
    var engines := Engines(fp);
    forall k | 0 <= k < |engines|
      ensures img.InBounds(engines[k].x, engines[k].y)
      ensures Afloat(kind, img, mask, Median(fp), (engines[k].x, engines[k].y))
    {
      var i := |fp| - 1 - k;
      assert engines[k] == fp[i];
      assert |fp| / 2 <= i by {
        assert k < |fp| / 10 <= |fp| / 2;
        assert |fp| / 2 + |fp| / 2 <= |fp|;
      }
      OrderedAt(fp, |fp| / 2, i);
    }
  }

  // ----- the ships cannot see what encode writes -----

  /**
   * Writing in colour layers 0..2 at bit positions up to `end` leaves the
   * ships as they were: the constructor that decode runs on the stego image
   * finds the ships that the one encode ran on the cover found.
   */
  lemma {:induction false} ShipsSurviveWrites(kind: FilterKind, img: Image, shots: seq<Shot>, bits: seq<bool>, end: int)
    requires img.Valid() && |shots| == |bits| && AllInBounds(img, shots) && 0 <= end <= 6
    requires FilterFirst.LowBits(shots, end)
    ensures WriteBits(img, shots, bits).Success?
    ensures ShipsSpec(kind, WriteBits(img, shots, bits).value, end) == ShipsSpec(kind, img, end)
  {
    var w := WriteBits(img, shots, bits).value;
    FilterFirst.RankingSurvivesWrites(kind, img, shots, bits, end);
    assert ShuffledRanking(kind, w, end) == ShuffledRanking(kind, img, end);
    if ShuffledRanking(kind, img, end).Success? {
      ShuffledRankingIn(kind, img, end);
      ShipsOfSurvive(kind, img, shots, bits, end, ShuffledRanking(kind, img, end).value);
    }
  }

  /** The ships the engines of one ranking find are the same before and after the writes. */
  lemma {:induction false} ShipsOfSurvive(kind: FilterKind, img: Image, shots: seq<Shot>, bits: seq<bool>, end: int,
                                          fp: seq<FilteredPixel>)
    requires img.Valid() && |shots| == |bits| && AllInBounds(img, shots) && 0 <= end <= 6
    requires FilterFirst.LowBits(shots, end)
    requires |fp| >= 1 && FilterFirst.PositionsIn(fp, img)
    ensures WriteBits(img, shots, bits).Success?
    ensures ShipsOf(kind, WriteBits(img, shots, bits).value, end, fp) == ShipsOf(kind, img, end, fp)
  {
    var engines := Engines(fp);
    assert FilterFirst.PositionsIn(engines, img) by {
      forall k | 0 <= k < |engines|
        ensures img.InBounds(engines[k].x, engines[k].y)
      {
        assert engines[k] == fp[|fp| - 1 - k];
      }
    }
    FleetsSurviveWrites(kind, img, shots, bits, end, Median(fp), engines);
  }

  /** The ships each engine adds are the same before and after the writes. */
  lemma {:induction false} FleetsSurviveWrites(kind: FilterKind, img: Image, shots: seq<Shot>, bits: seq<bool>,
                                               end: int, median: int, engines: seq<FilteredPixel>)
    requires img.Valid() && |shots| == |bits| && AllInBounds(img, shots) && 0 <= end <= 6
    requires FilterFirst.LowBits(shots, end) && FilterFirst.PositionsIn(engines, img)
    ensures WriteBits(img, shots, bits).Success?
    ensures var mask := FilterFirst.PickerMask(end);
            Fleets(kind, WriteBits(img, shots, bits).value, mask, median, engines) ==
            Fleets(kind, img, mask, median, engines)
  {
    var w := WriteBits(img, shots, bits).value;
    var mask := FilterFirst.PickerMask(end);
    forall k | 0 <= k < |engines|
      ensures EngineShips(kind, w, mask, median, engines[k].x, engines[k].y) ==
              EngineShips(kind, img, mask, median, engines[k].x, engines[k].y)
    {
      EscortsSurviveWrites(kind, img, shots, bits, end, median, engines[k].x, engines[k].y);
    }
  }

  /** The escorts of an engine are the same before and after the writes. */
  lemma {:induction false} EscortsSurviveWrites(kind: FilterKind, img: Image, shots: seq<Shot>, bits: seq<bool>,
                                                end: int, median: int, x: int, y: int)
    requires img.Valid() && |shots| == |bits| && AllInBounds(img, shots) && 0 <= end <= 6
    requires FilterFirst.LowBits(shots, end) && img.InBounds(x, y)
    ensures WriteBits(img, shots, bits).Success?
    ensures Escorts(kind, WriteBits(img, shots, bits).value, FilterFirst.PickerMask(end), median, x, y) ==
            Escorts(kind, img, FilterFirst.PickerMask(end), median, x, y)
  {
    var w := WriteBits(img, shots, bits).value;
    var mask := FilterFirst.PickerMask(end);
    forall c | c in Around(img, x, y)
      ensures Strength(kind, w, mask, c.0, c.1, 1) == Strength(kind, img, mask, c.0, c.1, 1)
    {
      StrengthIsScore(kind, w, mask, c.0, c.1);
      StrengthIsScore(kind, img, mask, c.0, c.1);
      WritesKeepFilterValue(kind, img, shots, bits, end, c.0, c.1);
    }
    assert Around(w, x, y) == Around(img, x, y);
  }

  // ----- getShot -----

  type Slot = HideSeek.Slot

  /** mMoveAwayFixed, mInitShots, mShotsIncrease and mShotRange: the tuning BattleSteg passes in. */
  datatype Tactics = Tactics(moveAway: int, initShots: int, shotsIncrease: int, shotRange: int)
  {
    predicate Valid()
    {
      IsInt32(moveAway) && IsInt32(initShots) && IsInt32(shotsIncrease) && IsInt32(shotRange)
    }
  }

  /**
   * What getShot reads and changes: the generator, the bits already shot
   * (beenShot), mNumShots and mMoveAway.
   */
  datatype Board = Board(gen: Generator, used: set<Slot>, numShots: int, moveAway: int)
  {
    predicate Valid()
    {
      gen.Valid() && HideSeek.Usable(gen) && IsInt32(numShots) && IsInt32(moveAway)
    }
  }

  /** The shot the redraw loop of a ranged shot settles on, and the generator and counters it leaves. */
  datatype Hit = Hit(shot: Shot, gen: Generator, numShots: int, moveAway: int)

  /** `mNumShots--` and `mMoveAway--` on an `int`. */
  function Dec(x: int): (r: int)
    ensures IsInt32(r)
  {
    I32(x - 1)
  }

  /** The shot indexes `beenShot[W][H][3][8]` (and so `mShips[W][H]`) inside the arrays. */
  predicate InGrid(g: Generator, sh: Shot)
  {
    0 <= sh.x < g.width && 0 <= sh.y < g.height && 0 <= sh.layer < 3 && 0 <= sh.bitPos < 8
  }

  /** The layer and the bit position of a shot are ones the generator draws. */
  predicate Aimed(g: Generator, sh: Shot)
  {
    0 <= sh.layer < g.numLayers && (g.start <= g.end ==> g.start <= sh.bitPos <= g.end)
  }

  /**
   * `super.getRangedShot(mShotRange)`, wrapped in one level of recursion
   * (`Ranged(g, range, 1)`), which puts the generator's arithmetic one
   * unfolding further from each use; RangedIsGetRangedShot states the
   * equality.
   */
  function Ranged(g: Generator, range: int, hold: nat): (r: Result<(Shot, Generator)>)
    requires g.Valid() && IsInt32(range)
    ensures r.Success? ==> Aimed(g, r.value.0) && r.value.1.Valid() && r.value.1.SameBounds(g)
    decreases hold
  {
    if hold > 0 then Ranged(g, range, hold - 1) else GetRangedShotSpec(g, range)
  }

  lemma {:induction false} RangedIsGetRangedShot(g: Generator, range: int)
    requires g.Valid() && IsInt32(range)
    ensures Ranged(g, range, 1) == GetRangedShotSpec(g, range)
  {
  }

  /**
   * A redraw of the ranged branch: a free shot (`super.getShot()`) once
   * either counter has run out, a ranged shot before.
   */
  function Volley(t: Tactics, g: Generator, numShots: int, moveAway: int): (r: Result<(Shot, Generator)>)
    requires t.Valid() && g.Valid()
    ensures r.Success? ==> Aimed(g, r.value.0) && r.value.1.Valid() && r.value.1.SameBounds(g)
  {
    if numShots <= 0 || moveAway <= 0 then HideSeek.Draw(g, 1) else Ranged(g, t.shotRange, 1)
  }

  /**
   * The redraw loop of the ranged branch, from shot sh with the counters
   * already decremented: a shot outside beenShot is an index out of bounds;
   * a used one is redrawn (Volley) and both counters go down once more.
   */
  function Hunt(t: Tactics, sh: Shot, g: Generator, used: set<Slot>, numShots: int, moveAway: int, fuel: nat)
    : (r: Result<Hit>)
    requires t.Valid() && g.Valid() && Aimed(g, sh) && IsInt32(numShots) && IsInt32(moveAway)
    ensures r.Success? ==> HideSeek.Fits(g, r.value.shot) && HideSeek.SlotOf(r.value.shot) !in used &&
                           r.value.gen.Valid() && r.value.gen.SameBounds(g) &&
                           IsInt32(r.value.numShots) && IsInt32(r.value.moveAway)
    decreases fuel
  {
    if !InGrid(g, sh) then Failure(Crash)
    else if HideSeek.SlotOf(sh) !in used then Success(Hit(sh, g, numShots, moveAway))
    else if fuel == 0 then Failure(Hang)
    else
      match Volley(t, g, numShots, moveAway)
      case Failure(e) => Failure(e)
      case Success((sh', g')) => Hunt(t, sh', g', used, Dec(numShots), Dec(moveAway), fuel - 1)
  }

  /** One redraw of the loop: a shot inside beenShot whose bit is used is replaced by the next Volley. */
  lemma {:induction false} HuntRedraws(t: Tactics, sh: Shot, g: Generator, used: set<Slot>, numShots: int, moveAway: int, fuel: nat)
    requires t.Valid() && g.Valid() && Aimed(g, sh) && IsInt32(numShots) && IsInt32(moveAway)
    requires InGrid(g, sh) && HideSeek.SlotOf(sh) in used && fuel > 0
    ensures Volley(t, g, numShots, moveAway).Failure? ==>
              Hunt(t, sh, g, used, numShots, moveAway, fuel) == Failure(Volley(t, g, numShots, moveAway).error)
    ensures Volley(t, g, numShots, moveAway).Success? ==>
              var (sh', g') := Volley(t, g, numShots, moveAway).value;
              Hunt(t, sh, g, used, numShots, moveAway, fuel) == Hunt(t, sh', g', used, Dec(numShots), Dec(moveAway), fuel - 1)
  {
  }

  /**
   * getShot when a counter has run out: mMoveAway is reset, a free shot is
   * drawn until its bit is unused, and mNumShots becomes mInitShots when the
   * shot hits a ship, 0 otherwise.
   */
  function Explore(t: Tactics, ships: set<Cell>, b: Board): (r: Result<(Shot, Board)>)
    requires t.Valid() && b.Valid()
    ensures r.Success? ==>
              var (sh, b') := r.value;
              HideSeek.Fits(b.gen, sh) && HideSeek.SlotOf(sh) !in b.used &&
              b'.used == b.used + {HideSeek.SlotOf(sh)} && b'.Valid() && b'.gen.SameBounds(b.gen)
  {
    match HideSeek.FreeShot(b.gen, b.used)
    case Failure(e) => Failure(e)
    case Success((sh, g')) =>
      var numShots := if (sh.x, sh.y) in ships then t.initShots else 0;
      Success((sh, Board(g', b.used + {HideSeek.SlotOf(sh)}, numShots, t.moveAway)))
  }

  /**
   * getShot while both counters are positive: both go down, a ranged shot is
   * drawn and redrawn while its bit is used (Hunt); a hit on a ship adds
   * mShotsIncrease to mNumShots and centres later ranged shots on it.
   */
  function Exploit(t: Tactics, ships: set<Cell>, b: Board): (r: Result<(Shot, Board)>)
    requires t.Valid() && b.Valid()
    ensures r.Success? ==>
              var (sh, b') := r.value;
              HideSeek.Fits(b.gen, sh) && HideSeek.SlotOf(sh) !in b.used &&
              b'.used == b.used + {HideSeek.SlotOf(sh)} && b'.Valid() && b'.gen.SameBounds(b.gen)
  {
    match Ranged(b.gen, t.shotRange, 1)
    case Failure(e) => Failure(e)
    case Success((sh, g')) =>
      match Hunt(t, sh, g', b.used, Dec(b.numShots), Dec(b.moveAway), HideSeek.MAX_REDRAWS)
      case Failure(e) => Failure(e)
      case Success(h) =>
        Success((h.shot, Landed(t, ships, b.used, h)))
  }

  /** The ranged branch step by step: the ranged shot, then its redraw loop, then the landing. */
  lemma {:induction false} ExploitSteps(t: Tactics, ships: set<Cell>, b: Board)
    requires t.Valid() && b.Valid()
    ensures Ranged(b.gen, t.shotRange, 1).Failure? ==>
              Exploit(t, ships, b) == Failure(Ranged(b.gen, t.shotRange, 1).error)
    ensures Ranged(b.gen, t.shotRange, 1).Success? ==>
              var (sh, g') := Ranged(b.gen, t.shotRange, 1).value;
              var h := Hunt(t, sh, g', b.used, Dec(b.numShots), Dec(b.moveAway), HideSeek.MAX_REDRAWS);
              Exploit(t, ships, b) == if h.Failure? then Failure(h.error) else Success((h.value.shot, Landed(t, ships, b.used, h.value)))
  {
  }

  /**
   * The board after the ranged branch settles on h: its bit is used, and a
   * hit on a ship adds mShotsIncrease to mNumShots and makes the shot the
   * generator's last one.
   */
  function Landed(t: Tactics, ships: set<Cell>, used: set<Slot>, h: Hit): (b': Board)
    requires t.Valid() && h.gen.Valid() && HideSeek.Usable(h.gen) && HideSeek.Fits(h.gen, h.shot)
    requires IsInt32(h.numShots) && IsInt32(h.moveAway)
    ensures b'.Valid() && b'.gen.SameBounds(h.gen) && b'.used == used + {HideSeek.SlotOf(h.shot)}
  {
    var used' := used + {HideSeek.SlotOf(h.shot)};
    if (h.shot.x, h.shot.y) in ships then
      Board(SetLastSpec(h.gen, h.shot), used', Add32(h.numShots, t.shotsIncrease), h.moveAway)
    else
      Board(h.gen, used', h.numShots, h.moveAway)
  }

  /**
   * getShot: a shot inside the generator's bounds on a bit not used before,
   * which is then marked as used.
   */
  function Fire(t: Tactics, ships: set<Cell>, b: Board): (r: Result<(Shot, Board)>)
    requires t.Valid() && b.Valid()
    ensures r.Success? ==>
              var (sh, b') := r.value;
              HideSeek.Fits(b.gen, sh) && HideSeek.SlotOf(sh) !in b.used &&
              b'.used == b.used + {HideSeek.SlotOf(sh)} && b'.Valid() && b'.gen.SameBounds(b.gen)
  {
    if b.numShots <= 0 || b.moveAway <= 0 then Explore(t, ships, b) else Exploit(t, ships, b)
  }

  /** Fire, held back behind `hold` levels of recursion; TurnIsFire states the equality for `hold == 1`. */
  function Turn(t: Tactics, ships: set<Cell>, b: Board, hold: nat): (r: Result<(Shot, Board)>)
    requires t.Valid() && b.Valid()
    ensures r.Success? ==>
              var (sh, b') := r.value;
              HideSeek.Fits(b.gen, sh) && HideSeek.SlotOf(sh) !in b.used &&
              b'.used == b.used + {HideSeek.SlotOf(sh)} && b'.Valid() && b'.gen.SameBounds(b.gen)
  {
    if hold > 0 then Turn(t, ships, b, hold - 1) else Fire(t, ships, b)
  }

  lemma TurnIsFire(t: Tactics, ships: set<Cell>, b: Board)
    requires t.Valid() && b.Valid()
    ensures Turn(t, ships, b, 1) == Fire(t, ships, b)
  {
  }

  /** The next n shots, and the board after them; the facts about them are ShotsFresh. */
  function Shots(t: Tactics, ships: set<Cell>, b: Board, n: nat): (r: Result<(seq<Shot>, Board)>)
    requires t.Valid() && b.Valid()
    ensures r.Success? ==> |r.value.0| == n && r.value.1.Valid() && r.value.1.gen.SameBounds(b.gen)
    decreases n
  {
    if n == 0 then Success(([], b))
    else
      match Shots(t, ships, b, n - 1)
      case Failure(e) => Failure(e)
      case Success((shots, b1)) =>
        match Turn(t, ships, b1, 1)
        case Failure(e) => Failure(e)
        case Success((s, b2)) => Success((shots + [s], b2))
  }

  /**
   * The shots of a run lie inside the generator's bounds, avoid the bits used
   * before and never repeat a bit; afterwards exactly their bits have been
   * added to the used ones.
   */
  lemma {:induction false} ShotsFresh(t: Tactics, ships: set<Cell>, b: Board, n: nat)
    requires t.Valid() && b.Valid() && Shots(t, ships, b, n).Success?
    ensures var (shots, b') := Shots(t, ships, b, n).value;
            b'.used == b.used + HideSeek.Slots(shots) &&
            (forall i :: 0 <= i < n ==> HideSeek.Fits(b.gen, shots[i]) && HideSeek.SlotOf(shots[i]) !in b.used) &&
            (forall i, j :: 0 <= i < j < n ==> HideSeek.SlotOf(shots[i]) != HideSeek.SlotOf(shots[j]))
    decreases n
  {
    if n == 0 {
      assert HideSeek.Slots([]) == {};
    } else {
      ShotsFresh(t, ships, b, n - 1);
      var (shots, b1) := Shots(t, ships, b, n - 1).value;
      var (sh, b2) := Turn(t, ships, b1, 1).value;
      HideSeek.SlotsSnoc(shots, sh);
      var all := shots + [sh];
      assert Shots(t, ships, b, n).value == (all, b2);
      assert forall i :: 0 <= i < n - 1 ==> all[i] == shots[i];
      assert all[n - 1] == sh;
    }
  }

  /** A result of a run with `first` put in front of its shots. */
  function Prefixed(first: seq<Shot>, r: Result<(seq<Shot>, Board)>): Result<(seq<Shot>, Board)>
  {
    match r
    case Failure(e) => Failure(e)
    case Success((rest, q)) => Success((first + rest, q))
  }

  /** Making n = a + m shots is making a shots and then m more from where those left off. */
  lemma {:induction false} ShotsSplit(t: Tactics, ships: set<Cell>, b: Board, a: nat, m: nat, n: nat,
                                      first: seq<Shot>, mid: Board)
    requires t.Valid() && b.Valid() && Shots(t, ships, b, a) == Success((first, mid)) && n == a + m
    ensures mid.Valid()
    ensures Shots(t, ships, b, n) == Prefixed(first, Shots(t, ships, mid, m))
    decreases m
  {
    if m > 0 {
      ShotsSplit(t, ships, b, a, m - 1, n - 1, first, mid);
      PrefixedStep(t, ships, b, n, first, mid, m);
    } else {
      assert first + [] == first;
    }
  }

  /** One more shot on both sides of ShotsSplit's equation keeps it. */
  lemma {:induction false} PrefixedStep(t: Tactics, ships: set<Cell>, b: Board, n: nat, first: seq<Shot>, mid: Board, m: nat)
    requires t.Valid() && b.Valid() && mid.Valid() && n > 0 && m > 0
    requires Shots(t, ships, b, n - 1) == Prefixed(first, Shots(t, ships, mid, m - 1))
    ensures Shots(t, ships, b, n) == Prefixed(first, Shots(t, ships, mid, m))
  {
    var r := Shots(t, ships, mid, m - 1);
    if r.Success? {
      var (rest, q) := r.value;
      var f := Turn(t, ships, q, 1);
      if f.Success? {
        var (sh, q') := f.value;
        assert Shots(t, ships, mid, m) == Success((rest + [sh], q'));
        assert Shots(t, ships, b, n) == Success(((first + rest) + [sh], q'));
        assert (first + rest) + [sh] == first + (rest + [sh]);
      }
    }
  }

  /** A run that fails fails for good: asking for more shots fails the same way. */
  lemma {:induction false} ShotsFailLonger(t: Tactics, ships: set<Cell>, b: Board, k: nat, n: nat)
    requires t.Valid() && b.Valid() && k <= n && Shots(t, ships, b, k).Failure?
    ensures Shots(t, ships, b, n) == Failure(Shots(t, ships, b, k).error)
    decreases n
  {
    if k < n {
      ShotsFailLonger(t, ships, b, k, n - 1);
    }
  }

  /** A run of a + m shots is a run of a shots followed by a run of m more. */
  lemma {:induction false} SplitRun(t: Tactics, ships: set<Cell>, b: Board, a: nat, m: nat, shots: seq<Shot>, q: Board)
    returns (first: seq<Shot>, mid: Board, rest: seq<Shot>, q': Board)
    requires t.Valid() && b.Valid() && Shots(t, ships, b, a + m) == Success((shots, q))
    ensures mid.Valid() && mid.gen.SameBounds(b.gen)
    ensures Shots(t, ships, b, a) == Success((first, mid)) && Shots(t, ships, mid, m) == Success((rest, q'))
    ensures shots == first + rest
  {
    if Shots(t, ships, b, a).Failure? {
      ShotsFailLonger(t, ships, b, a, a + m);
    }
    first, mid := Shots(t, ships, b, a).value.0, Shots(t, ships, b, a).value.1;
    ShotsSplit(t, ships, b, a, m, a + m, first, mid);
    rest, q' := Shots(t, ships, mid, m).value.0, Shots(t, ships, mid, m).value.1;
  }

  /** The next shot of a run in progress, in terms of the board it has reached. */
  lemma {:induction false} ShotsNext(t: Tactics, ships: set<Cell>, b0: Board, shots: seq<Shot>, b: Board)
    requires t.Valid() && b0.Valid() && Shots(t, ships, b0, |shots|) == Success((shots, b))
    ensures b.Valid() && b.gen.SameBounds(b0.gen)
    ensures Fire(t, ships, b).Failure? ==> Shots(t, ships, b0, |shots| + 1) == Failure(Fire(t, ships, b).error)
    ensures Fire(t, ships, b).Success? ==>
              Shots(t, ships, b0, |shots| + 1) ==
              Success((shots + [Fire(t, ships, b).value.0], Fire(t, ships, b).value.1))
  {
    TurnIsFire(t, ships, b);
  }

  /**
   * The board of a new BPRandom: a new PRandom for the image's size, layer
   * count and bit range, nothing shot yet, and both counters at Java's
   * default 0, so that the first shot is a free one.
   */
  function StartBoard(seed: int, img: Image, start: int, end: int): (b: Board)
    requires img.Valid() && HideSeek.ValidRange(start, end)
    ensures b.Valid() && b.used == {} && b.numShots == 0 && b.moveAway == 0
    ensures b.gen.width == img.width && b.gen.height == img.height
  {
    Board(HideSeek.StartPicker(seed, img, start, end).gen, {}, 0, 0)
  }

  /** The shots of a run of n shots from the start lie in the image and on distinct bits of it. */
  lemma {:induction false} RunUsable(t: Tactics, ships: set<Cell>, seed: int, img: Image, start: int, end: int, n: nat)
    requires img.Valid() && HideSeek.ValidRange(start, end) && t.Valid()
    requires Shots(t, ships, StartBoard(seed, img, start, end), n).Success?
    ensures AllInBounds(img, Shots(t, ships, StartBoard(seed, img, start, end), n).value.0)
    ensures DistinctAddresses(Shots(t, ships, StartBoard(seed, img, start, end), n).value.0)
    ensures forall i :: 0 <= i < n ==>
              HideSeek.Fits(StartBoard(seed, img, start, end).gen, Shots(t, ships, StartBoard(seed, img, start, end), n).value.0[i])
    ensures FilterFirst.LowBits(Shots(t, ships, StartBoard(seed, img, start, end), n).value.0, end)
  {
    var b := StartBoard(seed, img, start, end);
    var shots := Shots(t, ships, b, n).value.0;
    ShotsFresh(t, ships, b, n);
    HideSeek.FittingShotsInBounds(img, b.gen, shots);
    HideSeek.DistinctSlotsDistinctAddresses(b.gen, shots);
  }

  // ----- the counters -----

  /** Java's `int` arithmetic forgets multiples of 2^32. */
  lemma {:induction false} I32Congruent(a: int, c: int)
    requires (a - c) % TWO_32 == 0
    ensures I32(a) == I32(c)
  {
    var ra, rc := I32(a), I32(c);
    var ka, kc, k := (a - ra) / TWO_32, (c - rc) / TWO_32, (a - c) / TWO_32;
    assert a - ra == TWO_32 * ka;
    assert c - rc == TWO_32 * kc;
    assert a - c == TWO_32 * k;
    assert ra - rc == TWO_32 * (k - ka + kc);
  }

  /** Decrementing an `int` d + 1 times in Java is subtracting d + 1 with wrap-around. */
  lemma {:induction false} DecShift(x: int, d: int)
    ensures I32(Dec(x) - d) == I32(x - 1 - d)
  {
    I32Congruent(Dec(x) - d, x - 1 - d);
  }

  /**
   * The redraw loop of a ranged shot takes both counters down by one per
   * redraw: after d redraws each is its start value minus d, in `int`
   * arithmetic.
   */
  lemma {:induction false} HuntCounters(t: Tactics, sh: Shot, g: Generator, used: set<Slot>,
                                        numShots: int, moveAway: int, fuel: nat) returns (d: nat)
    requires t.Valid() && g.Valid() && Aimed(g, sh) && IsInt32(numShots) && IsInt32(moveAway)
    requires Hunt(t, sh, g, used, numShots, moveAway, fuel).Success?
    ensures var h := Hunt(t, sh, g, used, numShots, moveAway, fuel).value;
            h.numShots == I32(numShots - d) && h.moveAway == I32(moveAway - d)
    decreases fuel
  {
    if InGrid(g, sh) && HideSeek.SlotOf(sh) !in used {
      d := 0;
    } else {
      var sh', g' := HuntNext(t, sh, g, used, numShots, moveAway, fuel);
      var d' := HuntCounters(t, sh', g', used, Dec(numShots), Dec(moveAway), fuel - 1);
      DecShift(numShots, d');
      DecShift(moveAway, d');
      d := d' + 1;
    }
  }

  /** A redraw loop that goes on past shot sh goes on from the next Volley, with both counters decremented. */
  lemma {:induction false} HuntNext(t: Tactics, sh: Shot, g: Generator, used: set<Slot>,
                                    numShots: int, moveAway: int, fuel: nat) returns (sh': Shot, g': Generator)
    requires t.Valid() && g.Valid() && Aimed(g, sh) && IsInt32(numShots) && IsInt32(moveAway)
    requires Hunt(t, sh, g, used, numShots, moveAway, fuel).Success?
    requires !(InGrid(g, sh) && HideSeek.SlotOf(sh) !in used)
    ensures fuel > 0 && g'.Valid() && Aimed(g', sh') && IsInt32(Dec(numShots)) && IsInt32(Dec(moveAway))
    ensures Hunt(t, sh, g, used, numShots, moveAway, fuel) == Hunt(t, sh', g', used, Dec(numShots), Dec(moveAway), fuel - 1)
  {
    var v := Volley(t, g, numShots, moveAway).value;
    sh', g' := v.0, v.1;
  }

  /**
   * How getShot moves the counters. After a free shot mMoveAway is back at
   * mMoveAwayFixed and mNumShots is mInitShots on a ship, 0 elsewhere. After
   * a ranged shot that took d redraws both counters are d + 1 lower, and a
   * hit on a ship adds mShotsIncrease to mNumShots and makes the shot the
   * generator's last one.
   */
  lemma {:induction false} FireCounters(t: Tactics, ships: set<Cell>, b: Board) returns (d: nat)
    requires t.Valid() && b.Valid() && Fire(t, ships, b).Success?
    ensures var (sh, b') := Fire(t, ships, b).value;
            var onShip := (sh.x, sh.y) in ships;
            if b.numShots <= 0 || b.moveAway <= 0 then
              b'.moveAway == t.moveAway && b'.numShots == (if onShip then t.initShots else 0)
            else
              b'.moveAway == I32(b.moveAway - 1 - d) &&
              b'.numShots == (if onShip then Add32(I32(b.numShots - 1 - d), t.shotsIncrease) else I32(b.numShots - 1 - d)) &&
              (onShip ==> b'.gen.last == Some(sh))
  {
    if b.numShots <= 0 || b.moveAway <= 0 {
      d := 0;
      ExploreCounters(t, ships, b);
    } else {
      d := ExploitShifted(t, ships, b);
    }
  }

  /** A free shot resets mMoveAway, and sets mNumShots to mInitShots on a ship and to 0 elsewhere. */
  lemma {:induction false} ExploreCounters(t: Tactics, ships: set<Cell>, b: Board)
    requires t.Valid() && b.Valid() && Explore(t, ships, b).Success?
    ensures var (sh, b') := Explore(t, ships, b).value;
            var onShip := (sh.x, sh.y) in ships;
            b'.moveAway == t.moveAway && b'.numShots == (if onShip then t.initShots else 0)
  {
  }

  /** ExploitCounters with each counter's first decrement counted into d + 1. */
  lemma {:induction false} ExploitShifted(t: Tactics, ships: set<Cell>, b: Board) returns (d: nat)
    requires t.Valid() && b.Valid() && Exploit(t, ships, b).Success?
    ensures var (sh, b') := Exploit(t, ships, b).value;
            var onShip := (sh.x, sh.y) in ships;
            b'.moveAway == I32(b.moveAway - 1 - d) &&
            b'.numShots == (if onShip then Add32(I32(b.numShots - 1 - d), t.shotsIncrease) else I32(b.numShots - 1 - d)) &&
            (onShip ==> b'.gen.last == Some(sh))
  {
    d := ExploitCounters(t, ships, b);
    DecShift(b.numShots, d);
    DecShift(b.moveAway, d);
  }

  /** The counters of the outcome e of a ranged shot that needed d redraws, from the counters before it, each first decremented once:
      moveAway and numShots fall by d, a hit adds shotsIncrease to numShots and becomes the last hit. */
  ghost predicate CountersAfter(t: Tactics, ships: set<Cell>, e: (Shot, Board), numShots: int, moveAway: int, d: nat)
  {
    var onShip := (e.0.x, e.0.y) in ships;
    e.1.moveAway == I32(Dec(moveAway) - d) &&
    e.1.numShots == (if onShip then Add32(I32(Dec(numShots) - d), t.shotsIncrease) else I32(Dec(numShots) - d)) &&
    (onShip ==> e.1.gen.last == Some(e.0))
  }

  /** The counters after a ranged shot that needed d redraws, each first decremented once. */
  lemma {:induction false} ExploitCounters(t: Tactics, ships: set<Cell>, b: Board) returns (d: nat)
    requires t.Valid() && b.Valid() && Exploit(t, ships, b).Success?
    ensures CountersAfter(t, ships, Exploit(t, ships, b).value, b.numShots, b.moveAway, d)
  {
    var sh, g', h := ExploitLands(t, ships, b);
    d := HitCounters(t, ships, sh, g', b.used, b.numShots, b.moveAway, h);
  }

  /** A ranged branch that succeeds: its ranged shot, the redraw loop's hit, and the board it lands on. */
  lemma {:induction false} ExploitLands(t: Tactics, ships: set<Cell>, b: Board) returns (sh: Shot, g': Generator, h: Hit)
    requires t.Valid() && b.Valid() && Exploit(t, ships, b).Success?
    ensures g'.Valid() && Aimed(g', sh) && IsInt32(Dec(b.numShots)) && IsInt32(Dec(b.moveAway)) && HideSeek.Usable(g')
    ensures Hunt(t, sh, g', b.used, Dec(b.numShots), Dec(b.moveAway), HideSeek.MAX_REDRAWS) == Success(h)
    ensures Exploit(t, ships, b).value == (h.shot, Landed(t, ships, b.used, h))
  {
    ExploitSteps(t, ships, b);
    var r := Ranged(b.gen, t.shotRange, 1).value;
    sh, g' := r.0, r.1;
    h := Hunt(t, sh, g', b.used, Dec(b.numShots), Dec(b.moveAway), HideSeek.MAX_REDRAWS).value;
  }

  /** The counters on the board the redraw loop of a ranged shot lands on, from the counters before the shot. */
  lemma {:induction false} HitCounters(t: Tactics, ships: set<Cell>, sh: Shot, g: Generator, used: set<Slot>,
                                       numShots: int, moveAway: int, h: Hit) returns (d: nat)
    requires t.Valid() && g.Valid() && Aimed(g, sh) && IsInt32(Dec(numShots)) && IsInt32(Dec(moveAway))
    requires Hunt(t, sh, g, used, Dec(numShots), Dec(moveAway), HideSeek.MAX_REDRAWS) == Success(h)
    requires HideSeek.Usable(g)
    ensures CountersAfter(t, ships, (h.shot, Landed(t, ships, used, h)), numShots, moveAway, d)
  {
    d := HuntCounters(t, sh, g, used, Dec(numShots), Dec(moveAway), HideSeek.MAX_REDRAWS);
    LandedCounters(t, ships, used, h);
  }

  /** Where the shot lands: a hit adds shotsIncrease to numShots and becomes the last hit. */
  lemma {:induction false} LandedCounters(t: Tactics, ships: set<Cell>, used: set<Slot>, h: Hit)
    requires t.Valid() && h.gen.Valid() && HideSeek.Usable(h.gen) && HideSeek.Fits(h.gen, h.shot)
    requires IsInt32(h.numShots) && IsInt32(h.moveAway)
    ensures var b' := Landed(t, ships, used, h);
            var onShip := (h.shot.x, h.shot.y) in ships;
            b'.moveAway == h.moveAway &&
            b'.numShots == (if onShip then Add32(h.numShots, t.shotsIncrease) else h.numShots) &&
            (onShip ==> b'.gen.last == Some(h.shot))
  {
  }
}
