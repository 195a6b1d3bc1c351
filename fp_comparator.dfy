/**
 * The order the filter-driven algorithms sort pixels by: filter value
 * first, then x, then y. Sorting an array with it (`Arrays.sort`) is
 * modelled by an in-place insertion sort proved to produce the one sorted
 * permutation there is.
 */
module FPComparator {
  import opened FilteredPixels

  /** (value, x, y) of a comes lexicographically before that of b. */
  predicate LexLess(a: FilteredPixel, b: FilteredPixel)
  {
    a.value < b.value || (a.value == b.value && (a.x < b.x || (a.x == b.x && a.y < b.y)))
  }

  /**
   * compare: 0 for identical records, otherwise negative when a comes first
   * and positive when b does; the magnitude (100, 50 or 20) tells which field
   * decided.
   */
  function Compare(a: FilteredPixel, b: FilteredPixel): (r: int)
    ensures r == 0 <==> a == b
    ensures r < 0 <==> LexLess(a, b)
    ensures r > 0 <==> LexLess(b, a)
  {
    if a.value == b.value then
      if a.x == b.x then
        if a.y == b.y then 0
        else if a.y > b.y then 20
        else -20
      else if a.x > b.x then 50
      else -50
    else if a.value < b.value then -100
    else 100
  }

  /** equals: all three fields agree. */
  function Equals(a: FilteredPixel, b: FilteredPixel): (r: bool)
    ensures r <==> Compare(a, b) == 0
  {
    a.value == b.value && a.x == b.x && a.y == b.y
  }

  /** Swapping the arguments flips the sign (and keeps the magnitude). */
  lemma {:induction false} CompareAntisymmetric(a: FilteredPixel, b: FilteredPixel)
    ensures Compare(a, b) == -Compare(b, a)
  {
  }

  lemma {:induction false} CompareTransitive(a: FilteredPixel, b: FilteredPixel, c: FilteredPixel)
    requires Compare(a, b) < 0 && Compare(b, c) < 0
    ensures Compare(a, c) < 0
  {
  }

  /** Any two different records are ordered one way or the other. */
  lemma {:induction false} CompareTotal(a: FilteredPixel, b: FilteredPixel)
    ensures a == b || LexLess(a, b) || LexLess(b, a)
  {
  }

  // ----- sorting -----

  /** Ascending by the comparator: low values first. */
  predicate Sorted(s: seq<FilteredPixel>)
  {
    forall i, j :: 0 <= i < j < |s| ==> !LexLess(s[j], s[i])
  }

  /** Puts p into a sorted sequence before the first element that does not come before it. */
  function Insert(p: FilteredPixel, s: seq<FilteredPixel>): (r: seq<FilteredPixel>)
    ensures multiset(r) == multiset(s) + multiset{p}
    ensures |r| == |s| + 1
  {
    if s == [] then [p]
    else if LexLess(s[0], p) then
      assert s == [s[0]] + s[1..];
      [s[0]] + Insert(p, s[1..])
    else [p] + s
  }

  /** The sorted permutation of s. */
  function SortSeq(s: seq<FilteredPixel>): (r: seq<FilteredPixel>)
    ensures multiset(r) == multiset(s) && |r| == |s|
  {
    if s == [] then []
    else
      var n := |s| - 1;
      assert s == s[..n] + [s[n]];
      Insert(s[n], SortSeq(s[..n]))
  }

  lemma {:induction false} InsertSorted(p: FilteredPixel, s: seq<FilteredPixel>)
    requires Sorted(s)
    ensures Sorted(Insert(p, s))
  {
    if s != [] && LexLess(s[0], p) {
      var t := s[1..];
      assert Sorted(t);
      InsertSorted(p, t);
      var r := Insert(p, t);
      forall j | 0 <= j < |r|
        ensures !LexLess(r[j], s[0])
      {
        assert r[j] in multiset(r);
        assert r[j] in multiset(t) || r[j] == p;
      }
    }
  }

  lemma {:induction false} SortSeqSorted(s: seq<FilteredPixel>)
    ensures Sorted(SortSeq(s))
  {
    if s != [] {
      var n := |s| - 1;
      SortSeqSorted(s[..n]);
      InsertSorted(s[n], SortSeq(s[..n]));
    }
  }

  /** The first element of a sorted sequence comes no later than any element of it. */
  lemma {:induction false} SortedHeadLeast(s: seq<FilteredPixel>, p: FilteredPixel)
    requires Sorted(s) && p in multiset(s)
    ensures !LexLess(p, s[0])
  {
    var i :| 0 <= i < |s| && s[i] == p;
  }

  /**
   * Sorting is unique: two sorted sequences with the same elements are
   * equal, because the comparator leaves no two different records tied.
   */
  lemma {:induction false} SortedUnique(a: seq<FilteredPixel>, b: seq<FilteredPixel>)
    requires Sorted(a) && Sorted(b) && multiset(a) == multiset(b)
    ensures a == b
    decreases |a|
  {
    if a != [] {
      SortedHeadsEqual(a, b);
      TailsSameElements(a, b);
      SortedUnique(a[1..], b[1..]);
      assert a == [a[0]] + a[1..] && b == [b[0]] + b[1..];
    } else {
      assert |b| == |multiset(b)| == 0;
    }
  }

  /** Two sorted sequences with the same elements start with the same record. */
  lemma {:induction false} SortedHeadsEqual(a: seq<FilteredPixel>, b: seq<FilteredPixel>)
    requires Sorted(a) && Sorted(b) && multiset(a) == multiset(b) && a != []
    ensures b != [] && a[0] == b[0]
  {
    assert |b| == |multiset(b)| == |multiset(a)| == |a|;
    assert a[0] in multiset(a) && b[0] in multiset(b);
    SortedHeadLeast(b, a[0]);
    SortedHeadLeast(a, b[0]);
    CompareTotal(a[0], b[0]);
  }

  /** Taking the same first record off two sequences with the same elements leaves the same elements. */
  lemma {:induction false} TailsSameElements(a: seq<FilteredPixel>, b: seq<FilteredPixel>)
    requires a != [] && b != [] && a[0] == b[0] && multiset(a) == multiset(b)
    ensures multiset(a[1..]) == multiset(b[1..])
  {
    assert a == [a[0]] + a[1..] && b == [b[0]] + b[1..];
    assert multiset(a[1..]) == multiset(a) - multiset{a[0]};
    assert multiset(b[1..]) == multiset(b) - multiset{b[0]};
  }

  /** Whatever sorted the elements of s, the result is SortSeq(s). */
  lemma {:induction false} IsSortSeq(s: seq<FilteredPixel>, r: seq<FilteredPixel>)
    requires Sorted(r) && multiset(r) == multiset(s)
    ensures r == SortSeq(s)
  {
    SortSeqSorted(s);
    SortedUnique(r, SortSeq(s));
  }

  /**
   * `Arrays.sort(fparray, new FPComparator())`: sorts the array in place;
   * the result is the sorted permutation of its old contents.
   */
  method SortPixels(a: array<FilteredPixel>)
    modifies a
    ensures a[..] == SortSeq(old(a[..]))
  {
    var i := 1;
    while i < a.Length
      invariant 1 <= i || a.Length == 0
      invariant forall k, l :: 0 <= k < l < i && l < a.Length ==> !LexLess(a[l], a[k])
      invariant multiset(a[..]) == multiset(old(a[..]))
    {
      SinkLast(a, i);
      i := i + 1;
    }
    assert Sorted(a[..]);
    IsSortSeq(old(a[..]), a[..]);
  }

  /** One pass of insertion sort: a[i] moves left past every element that should follow it. */
  method SinkLast(a: array<FilteredPixel>, i: int)
    requires 1 <= i < a.Length
    requires forall k, l :: 0 <= k < l < i ==> !LexLess(a[l], a[k])
    modifies a
    ensures forall k, l :: 0 <= k < l <= i ==> !LexLess(a[l], a[k])
    ensures multiset(a[..]) == multiset(old(a[..]))
  {
    var j := i;
    while j > 0 && LexLess(a[j], a[j - 1])
      invariant 0 <= j <= i
      invariant multiset(a[..]) == multiset(old(a[..]))
      invariant Sinking(a[..], j, i)
    {
      SinkStep(a[..], j, i);
      a[j - 1], a[j] := a[j], a[j - 1];
      j := j - 1;
    }
    SinkDone(a[..], j, i);
  }

  /**
   * Halfway through a pass: the element at j moved down from i; everything
   * else up to i is in order, and what lies above j comes after it.
   */
  ghost predicate Sinking(s: seq<FilteredPixel>, j: int, i: int)
    requires 0 <= j <= i < |s|
  {
    && (forall k, l :: 0 <= k < l < j ==> !LexLess(s[l], s[k]))
    && (forall k, l :: j < k < l <= i ==> !LexLess(s[l], s[k]))
    && (forall k, l :: 0 <= k < j < l <= i ==> !LexLess(s[l], s[k]))
    && (forall l :: j < l <= i ==> LexLess(s[j], s[l]))
  }

  lemma {:induction false} SinkStep(s: seq<FilteredPixel>, j: int, i: int)
    requires 0 < j <= i < |s| && Sinking(s, j, i) && LexLess(s[j], s[j - 1])
    ensures Sinking(s[j - 1 := s[j]][j := s[j - 1]], j - 1, i)
  {
  }

  lemma {:induction false} SinkDone(s: seq<FilteredPixel>, j: int, i: int)
    requires 0 <= j <= i < |s| && Sinking(s, j, i)
    requires j == 0 || !LexLess(s[j], s[j - 1])
    ensures forall k, l :: 0 <= k < l <= i ==> !LexLess(s[l], s[k])
  {
  }
}
