/**
 * The toolkit's deprecated quicksorter for `int[][]` arrays. It sorts row 0
 * over a range of columns and carries every other row along, so whole
 * columns move. The rows are a rectangular `array2<int>`: a[t, c] is
 * `anarray[t][c]`. Every sort returns, as a ghost, the column permutation p
 * it applied: afterwards a[t, c] is the old a[t, p[c]] in every row t.
 */
module QuickSort {
  import opened Basics
  import JavaRandom

  /** The pivot types. */
  const RANDOM_PIVOT: int := 0
  const MEDIAN_PIVOT: int := 1
  const LAST_ELEM_PIVOT: int := 2

  /** The pivot type the constructor keeps: an unknown type becomes a random pivot. */
  function PivotTypeOf(pivot: int): (r: int)
    ensures r == RANDOM_PIVOT || r == MEDIAN_PIVOT || r == LAST_ELEM_PIVOT
    ensures r == pivot <==> pivot == RANDOM_PIVOT || pivot == MEDIAN_PIVOT || pivot == LAST_ELEM_PIVOT
    ensures r != pivot ==> r == RANDOM_PIVOT
  {
    if pivot != RANDOM_PIVOT && pivot != MEDIAN_PIVOT && pivot != LAST_ELEM_PIVOT then RANDOM_PIVOT else pivot
  }

  /** m lies between x and y. */
  predicate Between(m: int, x: int, y: int)
  {
    (x <= m <= y) || (y <= m <= x)
  }

  /**
   * getMedian: the position (0, 1 or 2) of a median of a, b, c. The first
   * of them that lies between the other two wins.
   */
  function MedianOf(a: int, b: int, c: int): (r: int)
    ensures 0 <= r <= 2
    ensures r == 0 <==> Between(a, b, c)
    ensures r == 1 <==> !Between(a, b, c) && Between(b, a, c)
    ensures r == 2 ==> Between(c, a, b)
  {
    if (a >= b && a <= c) || (a <= b && a >= c) then 0
    else if (b >= c && b <= a) || (b <= c && b >= a) then 1
    else 2
  }

  // ----- column permutations -----

  /** p reorders the columns 0..n-1, and moves only columns lo..hi, among themselves. */
  ghost predicate Shuffle(p: seq<int>, n: int, lo: int, hi: int)
  {
    |p| == n &&
    (forall c :: 0 <= c < n ==> 0 <= p[c] < n) &&
    (forall c :: 0 <= c < n && !(lo <= c <= hi) ==> p[c] == c) &&
    (forall c :: 0 <= c < n && lo <= c <= hi ==> lo <= p[c] <= hi) &&
    (forall c, d :: 0 <= c < d < n ==> p[c] != p[d])
  }

  function Identity(n: nat): (p: seq<int>)
    ensures |p| == n && forall c :: 0 <= c < n ==> p[c] == c
  {
    seq(n, c => c)
  }

  /** Where column c's contents come from when columns i and j trade places. */
  function Swapped(c: int, i: int, j: int): int
  {
    if c == i then j else if c == j then i else c
  }

  function Swap(n: nat, i: int, j: int): (p: seq<int>)
    ensures |p| == n && forall c :: 0 <= c < n ==> p[c] == Swapped(c, i, j)
  {
    seq(n, c => Swapped(c, i, j))
  }

  /** Where column c's contents come from when column i moves to j and j..i-1 move one place up. */
  function Rotated(c: int, j: int, i: int): int
  {
    if c == j then i else if j < c <= i then c - 1 else c
  }

  function Rotation(n: nat, j: int, i: int): (p: seq<int>)
    ensures |p| == n && forall c :: 0 <= c < n ==> p[c] == Rotated(c, j, i)
  {
    seq(n, c => Rotated(c, j, i))
  }

  /** First q, then p: column c of the result comes from column p[q[c]]. */
  function Compose(p: seq<int>, q: seq<int>): (r: seq<int>)
    requires forall c :: 0 <= c < |q| ==> 0 <= q[c] < |p|
    ensures |r| == |q| && forall c :: 0 <= c < |q| ==> r[c] == p[q[c]]
  {
    seq(|q|, c requires 0 <= c < |q| => p[q[c]])
  }

  lemma {:induction false} IdentityShuffle(n: nat, lo: int, hi: int)
    ensures Shuffle(Identity(n), n, lo, hi)
  {
    var p := Identity(n);
    assert forall c, d :: 0 <= c < d < n ==> p[c] != p[d];
  }

  /** Swapping two columns of lo..hi is a shuffle of lo..hi. */
  lemma {:induction false} SwapShuffle(n: nat, i: int, j: int, lo: int, hi: int)
    requires lo <= i <= hi && lo <= j <= hi && 0 <= lo && hi < n
    ensures Shuffle(Swap(n, i, j), n, lo, hi)
  {
    var p := Swap(n, i, j);
    forall c, d | 0 <= c < d < n
      ensures p[c] != p[d]
    {
      assert p[c] == Swapped(c, i, j) && p[d] == Swapped(d, i, j);
    }
  }

  /** Moving column i down to j (j <= i) inside lo..hi is a shuffle of lo..hi. */
  lemma {:induction false} RotationShuffle(n: nat, j: int, i: int, lo: int, hi: int)
    requires lo <= j <= i <= hi && 0 <= lo && hi < n
    ensures Shuffle(Rotation(n, j, i), n, lo, hi)
  {
    var p := Rotation(n, j, i);
    forall c, d | 0 <= c < d < n
      ensures p[c] != p[d]
    {
      assert p[c] == Rotated(c, j, i) && p[d] == Rotated(d, j, i);
    }
  }

  /** Two shuffles of lo..hi, one after the other, are a shuffle of lo..hi. */
  lemma {:induction false} ComposeShuffle(p: seq<int>, q: seq<int>, n: nat, lo: int, hi: int)
    requires Shuffle(p, n, lo, hi) && Shuffle(q, n, lo, hi)
    ensures Shuffle(Compose(p, q), n, lo, hi)
  {
    var r := Compose(p, q);
    forall c, d | 0 <= c < d < n
      ensures r[c] != r[d]
    {
      assert q[c] != q[d];
      if q[c] < q[d] {
        assert p[q[c]] != p[q[d]];
      } else {
        assert p[q[d]] != p[q[c]];
      }
    }
  }

  /** A shuffle of a range inside lo..hi, or of an empty range, is a shuffle of lo..hi. */
  lemma {:induction false} WidenShuffle(p: seq<int>, n: nat, lo': int, hi': int, lo: int, hi: int)
    requires Shuffle(p, n, lo', hi')
    requires hi' < lo' || (lo <= lo' && hi' <= hi)
    ensures Shuffle(p, n, lo, hi)
  {
  }

  // ----- row 0 -----

  /** Row 0 ascends over columns lo..hi. */
  ghost predicate Ascending(a: array2<int>, lo: int, hi: int)
    reads a
  {
    0 < a.Length0 && forall i, j :: 0 <= lo <= i < j <= hi < a.Length1 ==> a[0, i] <= a[0, j]
  }

  ghost function Row0(a: array2<int>): (r: seq<int>)
    requires 0 < a.Length0
    reads a
    ensures |r| == a.Length1 && forall c :: 0 <= c < a.Length1 ==> r[c] == a[0, c]
  {
    seq(a.Length1, c requires 0 <= c < a.Length1 reads a => a[0, c])
  }

  // ----- the loops that move whole columns -----

  /** `for t: swap anarray[t][i] and anarray[t][j]`: columns i and j trade places. */
  method SwapColumns(a: array2<int>, i: int, j: int)
    requires 0 <= i < a.Length1 && 0 <= j < a.Length1
    modifies a
    ensures forall t, c :: 0 <= t < a.Length0 && 0 <= c < a.Length1 ==> a[t, c] == old(a[t, Swapped(c, i, j)])
  {
    for t := 0 to a.Length0
      invariant forall r, c :: 0 <= r < a.Length0 && 0 <= c < a.Length1 ==>
                  a[r, c] == old(a[r, if r < t then Swapped(c, i, j) else c])
    {
      var temp := a[t, i];
      a[t, i] := a[t, j];
      a[t, j] := temp;
    }
  }

  /** Row t of insertionSort's shift: entry i moves to j and j..i-1 move one place up. */
  method RotateRow(a: array2<int>, t: int, j: int, i: int)
    requires 0 <= t < a.Length0 && 0 <= j <= i < a.Length1
    modifies a
    ensures forall r, c :: 0 <= r < a.Length0 && 0 <= c < a.Length1 ==>
              a[r, c] == old(a[r, if r == t then Rotated(c, j, i) else c])
  {
    var insertable := a[t, i];
    var k := i;
    while k > j
      invariant j <= k <= i
      invariant forall r, c :: 0 <= r < a.Length0 && 0 <= c < a.Length1 ==>
                  a[r, c] == old(a[r, if r == t && k < c <= i then c - 1 else c])
    {
      a[t, k] := a[t, k - 1];
      k := k - 1;
    }
    a[t, j] := insertable;
  }

  /** insertionSort's loop over the rows: column i moves to j, and j..i-1 one place up. */
  method RotateColumns(a: array2<int>, j: int, i: int)
    requires 0 <= j <= i < a.Length1
    modifies a
    ensures forall t, c :: 0 <= t < a.Length0 && 0 <= c < a.Length1 ==> a[t, c] == old(a[t, Rotated(c, j, i)])
  {
    for t := 0 to a.Length0
      invariant forall r, c :: 0 <= r < a.Length0 && 0 <= c < a.Length1 ==>
                  a[r, c] == old(a[r, if r < t then Rotated(c, j, i) else c])
    {
      RotateRow(a, t, j, i);
    }
  }

  /**
   * insertionSort, with the shift moving entries within each row: each
   * column of start+1..finish whose row-0 value is below its left
   * neighbour's moves down to the first column whose value is not below it.
   * A range of at most two columns is left as it is.
   */
  method InsertionSort(a: array2<int>, start: int, finish: int) returns (ghost p: seq<int>)
    requires 0 < a.Length0 && 0 <= start <= finish < a.Length1
    modifies a
    ensures Shuffle(p, a.Length1, start, finish)
    ensures forall t, c :: 0 <= t < a.Length0 && 0 <= c < a.Length1 ==> a[t, c] == old(a[t, p[c]])
    ensures finish - start > 1 ==> Ascending(a, start, finish)
  {
    p := Identity(a.Length1);
    IdentityShuffle(a.Length1, start, finish);
    if finish - start <= 1 {
      return;
    }
    for i := start + 1 to finish + 1
      invariant Ascending(a, start, i - 1)
      invariant Shuffle(p, a.Length1, start, finish)
      invariant forall t, c :: 0 <= t < a.Length0 && 0 <= c < a.Length1 ==> a[t, c] == old(a[t, p[c]])
    {
      label Before:
      var q := InsertStep(a, start, finish, i);
      ComposeShuffle(p, q, a.Length1, start, finish);
      forall t, c | 0 <= t < a.Length0 && 0 <= c < a.Length1
        ensures a[t, c] == old(a[t, Compose(p, q)[c]])
      {
        assert a[t, c] == old@Before(a[t, q[c]]);
      }
      p := Compose(p, q);
    }
  }

  /** One pass of insertionSort's loop: column i joins the ascending columns start..i-1. */
  method InsertStep(a: array2<int>, start: int, finish: int, i: int) returns (ghost q: seq<int>)
    requires 0 < a.Length0 && 0 <= start < i <= finish < a.Length1
    requires Ascending(a, start, i - 1)
    modifies a
    ensures Ascending(a, start, i)
    ensures Shuffle(q, a.Length1, start, finish)
    ensures forall t, c :: 0 <= t < a.Length0 && 0 <= c < a.Length1 ==> a[t, c] == old(a[t, q[c]])
  {
    q := Identity(a.Length1);
    IdentityShuffle(a.Length1, start, finish);
    if a[0, i] < a[0, i - 1] {
      var j := start;
      while a[0, i] > a[0, j]
        invariant start <= j <= i - 1
        invariant forall c :: start <= c < j ==> a[0, c] < a[0, i]
        decreases i - j
      {
        j := j + 1;
      }
      q := InsertColumn(a, start, finish, i, j);
    }
  }

  /** One insertion: column i, below everything in j..i-1 and above everything before j, moves to j. */
  method InsertColumn(a: array2<int>, start: int, finish: int, i: int, j: int) returns (ghost q: seq<int>)
    requires 0 < a.Length0 && 0 <= start <= j < i <= finish < a.Length1
    requires Ascending(a, start, i - 1) && a[0, i] <= a[0, j]
    requires forall c :: start <= c < j ==> a[0, c] < a[0, i]
    modifies a
    ensures Ascending(a, start, i)
    ensures Shuffle(q, a.Length1, start, finish)
    ensures forall t, c :: 0 <= t < a.Length0 && 0 <= c < a.Length1 ==> a[t, c] == old(a[t, q[c]])
  {
    RotateColumns(a, j, i);
    RotationShuffle(a.Length1, j, i, start, finish);
    q := Rotation(a.Length1, j, i);
  }

  /**
   * Partway through the split: a[0, finish] holds the pivot's value, the
   * columns start..s1-1 are not above it and s2+1..finish-1 are above it.
   */
  ghost predicate Splitting(a: array2<int>, start: int, finish: int, pivValue: int, s1: int, s2: int)
    reads a
  {
    0 < a.Length0 && 0 <= start <= s1 <= s2 <= finish - 1 && finish < a.Length1 &&
    a[0, finish] == pivValue &&
    (forall c :: start <= c < s1 ==> a[0, c] <= pivValue) &&
    (forall c :: s2 < c < finish ==> pivValue < a[0, c])
  }

  /**
   * The split of rsort and sort: with the pivot's column at `finish`, the
   * columns of start..finish-1 are sorted by their row-0 value into those
   * not above the pivot's, then those above it, and the pivot's column is
   * swapped to the boundary, s2.
   */
  method Partition(a: array2<int>, start: int, finish: int) returns (s2: int, ghost p: seq<int>)
    requires 0 < a.Length0 && 0 <= start < finish < a.Length1
    modifies a
    ensures start <= s2 <= finish && a[0, s2] == old(a[0, finish])
    ensures Shuffle(p, a.Length1, start, finish)
    ensures forall t, c :: 0 <= t < a.Length0 && 0 <= c < a.Length1 ==> a[t, c] == old(a[t, p[c]])
    ensures forall c :: start <= c < s2 ==> a[0, c] <= a[0, s2]
    ensures forall c :: s2 < c <= finish ==> a[0, s2] < a[0, c]
  {
    var pivValue := a[0, finish];
    var s1 := start;
    s2 := finish - 1;
    p := Identity(a.Length1);
    IdentityShuffle(a.Length1, start, finish);
    while s1 - s2 != 0
      invariant Splitting(a, start, finish, pivValue, s1, s2)
      invariant Shuffle(p, a.Length1, start, finish)
      invariant forall t, c :: 0 <= t < a.Length0 && 0 <= c < a.Length1 ==> a[t, c] == old(a[t, p[c]])
      decreases s2 - s1
    {
      label Before:
      ghost var q;
      s1, s2, q := SplitStep(a, start, finish, pivValue, s1, s2);
      ComposeShuffle(p, q, a.Length1, start, finish);
      forall t, c | 0 <= t < a.Length0 && 0 <= c < a.Length1
        ensures a[t, c] == old(a[t, Compose(p, q)[c]])
      {
        assert a[t, c] == old@Before(a[t, q[c]]);
      }
      p := Compose(p, q);
    }
    label Split:
    ghost var q;
    s2, q := PivotBack(a, start, finish, pivValue, s2);
    ComposeShuffle(p, q, a.Length1, start, finish);
    forall t, c | 0 <= t < a.Length0 && 0 <= c < a.Length1
      ensures a[t, c] == old(a[t, Compose(p, q)[c]])
    {
      assert a[t, c] == old@Split(a[t, q[c]]);
    }
    p := Compose(p, q);
  }

  /** One pass of the split loop: a column above the pivot goes to s2, else s1 moves on. */
  method SplitStep(a: array2<int>, start: int, finish: int, pivValue: int, s1: int, s2: int)
    returns (s1': int, s2': int, ghost q: seq<int>)
    requires Splitting(a, start, finish, pivValue, s1, s2) && s1 != s2
    modifies a
    ensures Splitting(a, start, finish, pivValue, s1', s2') && s2' - s1' < s2 - s1
    ensures Shuffle(q, a.Length1, start, finish)
    ensures forall t, c :: 0 <= t < a.Length0 && 0 <= c < a.Length1 ==> a[t, c] == old(a[t, q[c]])
  {
    q := Identity(a.Length1);
    IdentityShuffle(a.Length1, start, finish);
    s1', s2' := s1, s2;
    if a[0, s1] > pivValue {
      SwapColumns(a, s1, s2);
      SwapShuffle(a.Length1, s1, s2, start, finish);
      q := Swap(a.Length1, s1, s2);
      s2' := s2 - 1;
    } else {
      s1' := s1 + 1;
    }
  }

  /** After the split loop: the duplicate check, then the pivot's column swapped back to s2. */
  method PivotBack(a: array2<int>, start: int, finish: int, pivValue: int, s: int) returns (s2: int, ghost q: seq<int>)
    requires Splitting(a, start, finish, pivValue, s, s)
    modifies a
    ensures start <= s2 <= finish && a[0, s2] == pivValue
    ensures Shuffle(q, a.Length1, start, finish)
    ensures forall t, c :: 0 <= t < a.Length0 && 0 <= c < a.Length1 ==> a[t, c] == old(a[t, q[c]])
    ensures forall c :: start <= c < s2 ==> a[0, c] <= a[0, s2]
    ensures forall c :: s2 < c <= finish ==> a[0, s2] < a[0, c]
  {
    s2 := s;
    if a[0, s2] <= pivValue {
      s2 := s2 + 1;
    }
    SwapColumns(a, s2, finish);
    SwapShuffle(a.Length1, s2, finish, start, finish);
    q := Swap(a.Length1, s2, finish);
  }

  /** v is the value of one of x, y, z that lies between the other two. */
  predicate MedianOfThree(v: int, x: int, y: int, z: int)
  {
    (v == x && Between(x, y, z)) || (v == y && Between(y, x, z)) || (v == z && Between(z, x, y))
  }

  // ----- insertionSort as written -----

  /**
   * A Java `int[][]` as row references: row t is the row object refs[t] of
   * heap. insertionSort's shifting loop assigns whole rows,
   * `sarray[k] = sarray[k-1]`, with k a column index: it reads and writes
   * the outer array, so a column index past the last row fails, and the rows
   * it does reach end up sharing one row object.
   */
  datatype Rows = Rows(refs: seq<nat>, heap: seq<seq<int>>)

  /** The array whose row t is the row object g[t]. */
  function FromGrid(g: seq<seq<int>>): (m: Rows)
    ensures |m.refs| == |m.heap| == |g| && forall t :: 0 <= t < |g| ==> m.refs[t] == t
  {
    Rows(seq(|g|, t => t), g)
  }

  /** `sarray[t][c]`. */
  function ReadCell(m: Rows, t: int, c: int): (r: Result<int>)
    ensures r.Success? <==> 0 <= t < |m.refs| && m.refs[t] < |m.heap| && 0 <= c < |m.heap[m.refs[t]]|
    ensures r.Success? ==> r.value == m.heap[m.refs[t]][c]
  {
    if 0 <= t < |m.refs| && m.refs[t] < |m.heap| && 0 <= c < |m.heap[m.refs[t]]| then Success(m.heap[m.refs[t]][c])
    else Failure(Crash)
  }

  /** `sarray[t][c] = v`: every row sharing row t's object sees the write. */
  function WriteCell(m: Rows, t: int, c: int, v: int): (r: Result<Rows>)
    ensures r.Success? <==> 0 <= t < |m.refs| && m.refs[t] < |m.heap| && 0 <= c < |m.heap[m.refs[t]]|
    ensures r.Success? ==> r.value.refs == m.refs && |r.value.heap| == |m.heap|
  {
    if 0 <= t < |m.refs| && m.refs[t] < |m.heap| && 0 <= c < |m.heap[m.refs[t]]| then
      Success(Rows(m.refs, m.heap[m.refs[t] := m.heap[m.refs[t]][c := v]]))
    else Failure(Crash)
  }

  /** `sarray[k] = sarray[from]`: row k now refers to row from's object. */
  function AliasRow(m: Rows, k: int, from: int): (r: Result<Rows>)
    ensures r.Success? <==> 0 <= k < |m.refs| && 0 <= from < |m.refs|
    ensures r.Success? ==> |r.value.refs| == |m.refs| && r.value.heap == m.heap
  {
    if 0 <= k < |m.refs| && 0 <= from < |m.refs| then Success(Rows(m.refs[k := m.refs[from]], m.heap))
    else Failure(Crash)
  }

  /** `for (int k = i; k > j; k--) sarray[k] = sarray[k-1];` */
  function ShiftAsWritten(m: Rows, k: int, j: int): (r: Result<Rows>)
    ensures r.Success? ==> |r.value.refs| == |m.refs|
    ensures r.Success? && j < k ==> k < |m.refs|
    decreases k - j
  {
    if k <= j then Success(m)
    else
      match AliasRow(m, k, k - 1)
      case Failure(e) => Failure(e)
      case Success(m') => ShiftAsWritten(m', k - 1, j)
  }

  /** The `for (int t ...)` loop of insertionSort from row t on, moving column i to column j. */
  function MoveAsWritten(m: Rows, t: nat, i: int, j: int): (r: Result<Rows>)
    ensures r.Success? ==> |r.value.refs| == |m.refs|
    decreases |m.refs| - t
  {
    if t >= |m.refs| then Success(m)
    else
      match ReadCell(m, t, i)
      case Failure(e) => Failure(e)
      case Success(insertable) =>
        match ShiftAsWritten(m, i, j)
        case Failure(e) => Failure(e)
        case Success(shifted) =>
          match WriteCell(shifted, t, j, insertable)
          case Failure(e) => Failure(e)
          case Success(written) => MoveAsWritten(written, t + 1, i, j)
  }

  /** `while (sarray[0][i] > sarray[0][j]) j++;` from j: the first column whose key is not below column i's. */
  function FindAsWritten(m: Rows, i: int, j: int): (r: Result<int>)
    requires j <= i
    ensures r.Success? ==> j <= r.value <= i
    decreases i - j
  {
    match ReadCell(m, 0, i)
    case Failure(e) => Failure(e)
    case Success(key) =>
      match ReadCell(m, 0, j)
      case Failure(e) => Failure(e)
      case Success(other) => if key > other && j < i then FindAsWritten(m, i, j + 1) else Success(j)
  }

  /** insertionSort's outer loop as written, from column i on. */
  function PassesAsWritten(m: Rows, start: int, finish: int, i: int): (r: Result<Rows>)
    requires start < i
    ensures r.Success? ==> |r.value.refs| == |m.refs|
    decreases finish + 1 - i
  {
    if i > finish then Success(m)
    else
      match ReadCell(m, 0, i)
      case Failure(e) => Failure(e)
      case Success(key) =>
        match ReadCell(m, 0, i - 1)
        case Failure(e) => Failure(e)
        case Success(before) =>
          if key < before then
            match FindAsWritten(m, i, start)
            case Failure(e) => Failure(e)
            case Success(j) =>
              match MoveAsWritten(m, 0, i, j)
              case Failure(e) => Failure(e)
              case Success(moved) => PassesAsWritten(moved, start, finish, i + 1)
          else PassesAsWritten(m, start, finish, i + 1)
  }

  /** insertionSort as written, shifting whole rows where it means to shift columns. */
  function InsertionSortAsWritten(m: Rows, start: int, finish: int): (r: Result<Rows>)
    ensures finish - start <= 1 ==> r == Success(m)
    ensures r.Success? ==> |r.value.refs| == |m.refs|
  {
    if finish - start <= 1 then Success(m) else PassesAsWritten(m, start, finish, start + 1)
  }

  /**
   * Two rows {1, 2, 0} and {10, 20, 30}, sorted over columns 0..2: column 2
   * belongs first, and shifting it there runs `sarray[2] = sarray[1]` on an
   * array of two rows, which fails. rsort reaches this call whenever
   * useInsertion is 2 or more.
   */
  lemma InsertionSortAsWrittenCrashes()
    ensures InsertionSortAsWritten(FromGrid([[1, 2, 0], [10, 20, 30]]), 0, 2) == Failure(Crash)
  {
    var m := FromGrid([[1, 2, 0], [10, 20, 30]]);
    assert PassesAsWritten(m, 0, 2, 2) == Failure(Crash) by {
      assert FindAsWritten(m, 2, 0) == Success(0);
      assert AliasRow(m, 2, 1) == Failure(Crash);
      assert ShiftAsWritten(m, 2, 0) == Failure(Crash);
      assert MoveAsWritten(m, 0, 2, 0) == Failure(Crash);
    }
    assert PassesAsWritten(m, 0, 2, 1) == PassesAsWritten(m, 0, 2, 2);
  }

  // ----- the explicit stack of sort -----

  /** Java's Position: a column range start..finish waiting on the stack. */
  datatype Position = Position(start: int, finish: int)
  {
    /** Two or more columns. */
    predicate Wide()
    {
      finish - start >= 1
    }

    predicate Holds(i: int, j: int)
    {
      start <= i && j <= finish
    }

    function Size(): nat
    {
      if start <= finish then finish - start + 1 else 0
    }
  }

  /** Columns i and j lie in one range of the stack. */
  predicate Together(stack: seq<Position>, i: int, j: int)
  {
    stack != [] && (stack[|stack| - 1].Holds(i, j) || Together(stack[..|stack| - 1], i, j))
  }

  /** The ranges on the stack lie inside s..f, and no two wide ones overlap. */
  ghost predicate Pending(stack: seq<Position>, s: int, f: int)
  {
    (forall k :: 0 <= k < |stack| && stack[k].start <= stack[k].finish ==> s <= stack[k].start && stack[k].finish <= f) &&
    (forall k, l :: 0 <= k < l < |stack| && stack[k].Wide() && stack[l].Wide() ==>
       stack[k].finish < stack[l].start || stack[l].finish < stack[k].start)
  }

  /** Row 0 ascends over s..f, except between columns that still share a range on the stack. */
  ghost predicate AscendingBut(row: seq<int>, stack: seq<Position>, s: int, f: int)
  {
    forall i, j :: 0 <= s <= i < j <= f < |row| && !Together(stack, i, j) ==> row[i] <= row[j]
  }

  /** What is left to do: it falls by one or more with every pass of sort's loop. */
  function Weight(stack: seq<Position>): nat
  {
    if stack == [] then 0 else Weight(stack[..|stack| - 1]) + 2 * stack[|stack| - 1].Size() + 1
  }

  lemma {:induction false} TogetherPush(rest: seq<Position>, x: Position, i: int, j: int)
    ensures Together(rest + [x], i, j) <==> x.Holds(i, j) || Together(rest, i, j)
  {
    assert (rest + [x])[..|rest|] == rest;
  }

  lemma {:induction false} WeightPush(rest: seq<Position>, x: Position)
    ensures Weight(rest + [x]) == Weight(rest) + 2 * x.Size() + 1
  {
    assert (rest + [x])[..|rest|] == rest;
  }

  /** No wide range of rest overlaps x. */
  ghost predicate ApartFrom(rest: seq<Position>, x: Position)
  {
    forall k :: 0 <= k < |rest| && rest[k].Wide() ==> rest[k].finish < x.start || x.finish < rest[k].start
  }

  /** Two columns, one of them in x, never share a range of a stack whose ranges are apart from x. */
  lemma {:induction false} NotTogetherAcross(rest: seq<Position>, x: Position, c: int, i: int, j: int)
    requires ApartFrom(rest, x) && x.start <= c <= x.finish && i < j && (i == c || j == c)
    ensures !Together(rest, i, j)
    decreases |rest|
  {
    if rest != [] {
      var init := rest[..|rest| - 1];
      assert ApartFrom(init, x) by {
        forall k | 0 <= k < |init| && init[k].Wide()
          ensures init[k].finish < x.start || x.finish < init[k].start
        {
          assert init[k] == rest[k];
        }
      }
      NotTogetherAcross(init, x, c, i, j);
    }
  }

  /** A pass that reorders only the columns of the popped range x keeps the order between the rest. */
  lemma {:induction false} PopOrder(prev: seq<int>, next: seq<int>, q: seq<int>, rest: seq<Position>, x: Position,
                                    s: int, f: int)
    requires Pending(rest + [x], s, f) && AscendingBut(prev, rest + [x], s, f)
    requires |next| == |prev| && Shuffle(q, |prev|, x.start, x.finish)
    requires forall c :: 0 <= c < |prev| ==> next[c] == prev[q[c]]
    ensures AscendingBut(next, rest + [x], s, f)
  {
    assert x.Wide() ==> ApartFrom(rest, x) by {
      if x.Wide() {
        forall k | 0 <= k < |rest| && rest[k].Wide()
          ensures rest[k].finish < x.start || x.finish < rest[k].start
        {
          assert (rest + [x])[k] == rest[k] && (rest + [x])[|rest|] == x;
        }
      }
    }
    forall i, j | 0 <= s <= i < j <= f < |next| && !Together(rest + [x], i, j)
      ensures next[i] <= next[j]
    {
      TogetherPush(rest, x, i, j);
      var inI := x.start <= i <= x.finish;
      var inJ := x.start <= j <= x.finish;
      if inI && !inJ {
        assert q[j] == j && x.start <= q[i] <= x.finish && q[i] < j;
        if q[i] != i {
          assert x.Wide();
          NotTogetherAcross(rest, x, q[i], q[i], j);
        }
        TogetherPush(rest, x, q[i], j);
      } else if inJ && !inI {
        assert q[i] == i && x.start <= q[j] <= x.finish && i < q[j];
        if q[j] != j {
          assert x.Wide();
          NotTogetherAcross(rest, x, q[j], i, q[j]);
        }
        TogetherPush(rest, x, i, q[j]);
      } else {
        assert q[i] == i && q[j] == j;
      }
    }
  }

  /** A popped range that is now in order no longer needs to share its columns. */
  lemma {:induction false} DoneOrder(row: seq<int>, rest: seq<Position>, x: Position, s: int, f: int)
    requires AscendingBut(row, rest + [x], s, f)
    requires forall i, j :: 0 <= x.start <= i < j <= x.finish < |row| ==> row[i] <= row[j]
    requires x.start <= x.finish ==> s <= x.start && x.finish <= f
    ensures AscendingBut(row, rest, s, f)
  {
    forall i, j | 0 <= s <= i < j <= f < |row| && !Together(rest, i, j)
      ensures row[i] <= row[j]
    {
      TogetherPush(rest, x, i, j);
    }
  }

  /** A popped range split around the pivot at s2 keeps row 0 in order across the pivot. */
  lemma {:induction false} PartOrder(row: seq<int>, rest: seq<Position>, x: Position, s2: int, s: int, f: int)
    requires AscendingBut(row, rest + [x], s, f)
    requires 0 <= x.start <= s2 <= x.finish < |row|
    requires forall c :: x.start <= c < s2 ==> row[c] <= row[s2]
    requires forall c :: s2 < c <= x.finish ==> row[s2] < row[c]
    ensures AscendingBut(row, rest + [Position(x.start, s2 - 1), Position(s2 + 1, x.finish)], s, f)
  {
    var left, right := Position(x.start, s2 - 1), Position(s2 + 1, x.finish);
    assert rest + [left, right] == (rest + [left]) + [right];
    forall i, j | 0 <= s <= i < j <= f < |row| && !Together(rest + [left, right], i, j)
      ensures row[i] <= row[j]
    {
      TogetherPush(rest + [left], right, i, j);
      TogetherPush(rest, left, i, j);
      TogetherPush(rest, x, i, j);
    }
  }

  lemma {:induction false} PendingPop(rest: seq<Position>, x: Position, s: int, f: int)
    requires Pending(rest + [x], s, f)
    ensures Pending(rest, s, f)
    ensures x.start <= x.finish ==> s <= x.start && x.finish <= f
    ensures x.Wide() ==> ApartFrom(rest, x)
  {
    assert forall k :: 0 <= k < |rest| ==> (rest + [x])[k] == rest[k];
    assert (rest + [x])[|rest|] == x;
  }

  /** The two halves of a split range go back on the stack without overlapping anything. */
  lemma {:induction false} PendingSplit(rest: seq<Position>, x: Position, s2: int, s: int, f: int)
    requires Pending(rest, s, f) && ApartFrom(rest, x)
    requires s <= x.start <= s2 <= x.finish <= f
    ensures Pending(rest + [Position(x.start, s2 - 1), Position(s2 + 1, x.finish)], s, f)
    ensures Weight(rest + [Position(x.start, s2 - 1), Position(s2 + 1, x.finish)]) < Weight(rest + [x])
  {
    var left, right := Position(x.start, s2 - 1), Position(s2 + 1, x.finish);
    SplitPending(rest, x, s2, s, f);
    assert rest + [left, right] == (rest + [left]) + [right];
    WeightPush(rest, x);
    WeightPush(rest, left);
    WeightPush(rest + [left], right);
  }

  /** The two halves of a split range keep the stack in s..f and apart. */
  lemma {:induction false} SplitPending(rest: seq<Position>, x: Position, s2: int, s: int, f: int)
    requires Pending(rest, s, f) && ApartFrom(rest, x)
    requires s <= x.start <= s2 <= x.finish <= f
    ensures Pending(rest + [Position(x.start, s2 - 1), Position(s2 + 1, x.finish)], s, f)
  {
    var left, right := Position(x.start, s2 - 1), Position(s2 + 1, x.finish);
    var next := rest + [left, right];
    assert forall k :: 0 <= k < |rest| ==> next[k] == rest[k];
    assert next[|rest|] == left && next[|rest| + 1] == right;
    forall k, l | 0 <= k < l < |next| && next[k].Wide() && next[l].Wide()
      ensures next[k].finish < next[l].start || next[l].finish < next[k].start
    {
      if l < |rest| {
        assert next[k] == rest[k] && next[l] == rest[l];
      } else if k < |rest| {
        assert next[k] == rest[k];
      }
    }
  }

  /** The pivot at column s2 splits start..finish: no larger key before it, only larger keys after it. */
  ghost predicate PivotSplits(a: array2<int>, start: int, s2: int, finish: int)
    reads a
  {
    0 < a.Length0 && 0 <= start <= s2 <= finish < a.Length1 &&
    (forall c :: start <= c < s2 ==> a[0, c] <= a[0, s2]) &&
    (forall c :: s2 < c <= finish ==> a[0, s2] < a[0, c])
  }

  /** Two ascending sides of a pivot that splits them make one ascending range. */
  lemma {:induction false} JoinSides(a: array2<int>, start: int, s2: int, finish: int)
    requires PivotSplits(a, start, s2, finish)
    requires Ascending(a, start, s2 - 1) && Ascending(a, s2 + 1, finish)
    ensures Ascending(a, start, finish)
  {
    forall i, j | start <= i < j <= finish
      ensures a[0, i] <= a[0, j]
    {
      if i < s2 < j {
        assert a[0, i] <= a[0, s2] < a[0, j];
      }
    }
  }

  /** The range x of the stack rest + [x], reordered by q into ascending order, leaves the stack rest. */
  lemma {:induction false} DoneAt(a: array2<int>, prev: seq<int>, q: seq<int>, rest: seq<Position>, x: Position,
                                  s: int, f: int)
    requires 0 < a.Length0 && |prev| == a.Length1
    requires Pending(rest + [x], s, f) && AscendingBut(prev, rest + [x], s, f)
    requires Shuffle(q, a.Length1, x.start, x.finish)
    requires forall c :: 0 <= c < a.Length1 ==> a[0, c] == prev[q[c]]
    requires Ascending(a, x.start, x.finish)
    ensures AscendingBut(Row0(a), rest, s, f)
  {
    var row := Row0(a);
    PopOrder(prev, row, q, rest, x, s, f);
    PendingPop(rest, x, s, f);
    DoneOrder(row, rest, x, s, f);
  }

  /** The range x of the stack rest + [x], reordered by q and split at s2, leaves both its halves on the stack. */
  lemma {:induction false} PartAt(a: array2<int>, prev: seq<int>, q: seq<int>, rest: seq<Position>, x: Position,
                                  s2: int, s: int, f: int)
    requires 0 < a.Length0 && |prev| == a.Length1
    requires Pending(rest + [x], s, f) && AscendingBut(prev, rest + [x], s, f)
    requires Shuffle(q, a.Length1, x.start, x.finish)
    requires forall c :: 0 <= c < a.Length1 ==> a[0, c] == prev[q[c]]
    requires PivotSplits(a, x.start, s2, x.finish)
    ensures AscendingBut(Row0(a), rest + [Position(x.start, s2 - 1), Position(s2 + 1, x.finish)], s, f)
  {
    var row := Row0(a);
    PopOrder(prev, row, q, rest, x, s, f);
    PartOrder(row, rest, x, s2, s, f);
  }

  /** Once nothing is left on the stack, row 0 ascends over the whole range. */
  lemma {:induction false} AscendingFrom(a: array2<int>, s: int, f: int)
    requires 0 < a.Length0 && AscendingBut(Row0(a), [], s, f)
    ensures Ascending(a, s, f)
  {
    var row := Row0(a);
    forall i, j | 0 <= s <= i < j <= f < a.Length1
      ensures a[0, i] <= a[0, j]
    {
      assert !Together([], i, j);
      assert row[i] <= row[j];
    }
  }

  // ----- the sorter -----

  /**
   * A quicksorter with its pivot rule, its insertion-sort threshold and its
   * own random number generator, seeded from the clock at construction.
   */
  class QuickSort {
    /** Ranges this small (in columns, one fewer for rsort) go to insertion sort. */
    const useInsertion: int
    const pivotType: int
    const numGen: JavaRandom.Random

    /** An unknown pivot type becomes the random pivot. */
    constructor (pivot: int, useInsertionSort: int, clock: int)
      ensures pivotType == PivotTypeOf(pivot) && useInsertion == useInsertionSort
      ensures fresh(numGen) && numGen.seed == JavaRandom.Scramble(clock)
    {
      pivotType := PivotTypeOf(pivot);
      numGen := new JavaRandom.Random(clock);
      useInsertion := useInsertionSort;
    }

    /** The random pivot, and no insertion sort. */
    constructor Default(clock: int)
      ensures pivotType == RANDOM_PIVOT && useInsertion == 0
      ensures fresh(numGen) && numGen.seed == JavaRandom.Scramble(clock)
    {
      pivotType := RANDOM_PIVOT;
      numGen := new JavaRandom.Random(clock);
      useInsertion := 0;
    }

    /** `mNumGen.nextInt(finish - start) + start`: a column of start..finish-1. */
    method DrawPivot(start: int, finish: int) returns (r: Result<int>)
      requires 0 <= start < finish < TWO_31
      modifies numGen
      ensures r.Success? ==>
        JavaRandom.NextIntSpec(old(numGen.seed), finish - start) == Success(JavaRandom.Draw(r.value - start, numGen.seed))
      ensures r.Failure? ==> r == Failure(Hang) && JavaRandom.NextIntSpec(old(numGen.seed), finish - start) == Failure(Hang)
    {
      var d := numGen.NextInt(finish - start);
      if d.Failure? {
        return Failure(d.error);
      }
      return Success(d.value + start);
    }

    /**
     * The column of the pivot for the range start..finish: a random column
     * before finish, the column holding the median of the first, middle and
     * last keys, or finish itself. Only the random pivot draws a number.
     */
    method PivotPosition(a: array2<int>, start: int, finish: int) returns (r: Result<int>)
      requires 0 < a.Length0 && 0 <= start < finish < a.Length1 && a.Length1 < TWO_31
      modifies numGen
      ensures r.Success? ==> start <= r.value <= finish
      ensures pivotType == RANDOM_PIVOT && r.Success? ==>
        r.value < finish &&
        JavaRandom.NextIntSpec(old(numGen.seed), finish - start) == Success(JavaRandom.Draw(r.value - start, numGen.seed))
      ensures r.Failure? ==> pivotType == RANDOM_PIVOT && r == Failure(Hang)
      ensures pivotType == MEDIAN_PIVOT ==>
        var middle := (finish - start) / 2 + start;
        r.Success? && (r.value == start || r.value == middle || r.value == finish) &&
        MedianOfThree(a[0, r.value], a[0, start], a[0, middle], a[0, finish])
      ensures pivotType != RANDOM_PIVOT && pivotType != MEDIAN_PIVOT ==> r == Success(finish)
      ensures pivotType != RANDOM_PIVOT ==> numGen.seed == old(numGen.seed)
    {
      if pivotType == RANDOM_PIVOT {
        r := DrawPivot(start, finish);
      } else if pivotType == MEDIAN_PIVOT {
        var middle := (finish - start) / 2 + start;
        var m := MedianOf(a[0, start], a[0, middle], a[0, finish]);
        r := Success(if m == 0 then start else if m == 1 then middle else finish);
      } else {
        r := Success(finish);
      }
    }

    /**
     * One pass of rsort or of sort's loop over start..finish: nothing for a
     * single column or a single row, one swap for two columns, insertion sort
     * when finish - start is at most limit, and otherwise the pivot moved to
     * finish and the range partitioned around it; the pivot's final column
     * comes back, and the two halves beside it are left to sort.
     */
    method Divide(a: array2<int>, start: int, finish: int, limit: int) returns (r: Result<Option<int>>, ghost p: seq<int>)
      requires finish - start < 1 || a.Length0 < 2 || (0 <= start && finish < a.Length1)
      requires a.Length1 < TWO_31
      modifies a, numGen
      ensures Shuffle(p, a.Length1, start, finish)
      ensures forall t, c :: 0 <= t < a.Length0 && 0 <= c < a.Length1 ==> a[t, c] == old(a[t, p[c]])
      ensures r.Success? && r.value.None? && a.Length0 >= 2 ==> Ascending(a, start, finish)
      ensures r.Success? && r.value.Some? ==>
        2 <= a.Length0 && 2 <= finish - start && limit < finish - start &&
        PivotSplits(a, start, r.value.value, finish)
      ensures r.Failure? ==> r == Failure(Hang) && pivotType == RANDOM_PIVOT
    {
      p := Identity(a.Length1);
      IdentityShuffle(a.Length1, start, finish);
      if finish - start < 1 || a.Length0 < 2 {
        return Success(None), p;
      }
      if finish - start == 1 {
        if a[0, start] > a[0, finish] {
          SwapColumns(a, start, finish);
          SwapShuffle(a.Length1, start, finish, start, finish);
          p := Swap(a.Length1, start, finish);
        }
        return Success(None), p;
      }
      if finish - start <= limit {
        p := InsertionSort(a, start, finish);
        return Success(None), p;
      }
      var pivpos := PivotPosition(a, start, finish);
      if pivpos.Failure? {
        return Failure(pivpos.error), p;
      }
      if pivpos.value != finish {
        SwapColumns(a, pivpos.value, finish);
        SwapShuffle(a.Length1, pivpos.value, finish, start, finish);
        p := Swap(a.Length1, pivpos.value, finish);
      }
      label Swapped:
      var s2, q := Partition(a, start, finish);
      ComposeShuffle(p, q, a.Length1, start, finish);
      forall t, c | 0 <= t < a.Length0 && 0 <= c < a.Length1
        ensures a[t, c] == old(a[t, Compose(p, q)[c]])
      {
        assert a[t, c] == old@Swapped(a[t, q[c]]);
      }
      return Success(Some(s2)), Compose(p, q);
    }
 
    /**
     * rsort: sorts the columns start..finish by row 0, recursing into the two
     * halves beside each pivot. Ranges of more than useInsertion + 1 columns
     * are partitioned; smaller ones of three or more go to insertion sort.
     */
    method RSort(a: array2<int>, start: int, finish: int) returns (r: Result<()>, ghost p: seq<int>)
      requires finish - start < 1 || a.Length0 < 2 || (0 <= start && finish < a.Length1)
      requires a.Length1 < TWO_31
      modifies a, numGen
      decreases finish - start, 3
      ensures Shuffle(p, a.Length1, start, finish)
      ensures forall t, c :: 0 <= t < a.Length0 && 0 <= c < a.Length1 ==> a[t, c] == old(a[t, p[c]])
      ensures r.Success? && a.Length0 >= 2 ==> Ascending(a, start, finish)
      ensures r.Failure? ==> r == Failure(Hang) && pivotType == RANDOM_PIVOT
    {
      var parts;
      parts, p := Divide(a, start, finish, useInsertion);
      if parts.Failure? {
        return Failure(parts.error), p;
      }
      if parts.value.None? {
        return Success(()), p;
      }
      label Parted:
      ghost var q;
      r, q := SortHalves(a, start, finish, parts.value.value);
      ComposeShuffle(p, q, a.Length1, start, finish);
      forall t, c | 0 <= t < a.Length0 && 0 <= c < a.Length1
        ensures a[t, c] == old(a[t, Compose(p, q)[c]])
      {
        assert a[t, c] == old@Parted(a[t, q[c]]);
      }
      p := Compose(p, q);
    }

    /** The recursive calls of rsort on the sides of the pivot at column s2 that hold columns. */
    method SortHalves(a: array2<int>, start: int, finish: int, s2: int) returns (r: Result<()>, ghost p: seq<int>)
      requires 2 <= a.Length0 && PivotSplits(a, start, s2, finish) && a.Length1 < TWO_31
      modifies a, numGen
      decreases finish - start, 2
      ensures Shuffle(p, a.Length1, start, finish)
      ensures forall t, c :: 0 <= t < a.Length0 && 0 <= c < a.Length1 ==> a[t, c] == old(a[t, p[c]])
      ensures r.Success? ==> Ascending(a, start, finish)
      ensures r.Failure? ==> r == Failure(Hang) && pivotType == RANDOM_PIVOT
    {
      if s2 == start {
        r, p := SortSide(a, start + 1, finish, start, s2, finish);
        WidenShuffle(p, a.Length1, start + 1, finish, start, finish);
        if r.Success? {
          JoinSides(a, start, s2, finish);
        }
      } else if s2 == finish {
        r, p := SortSide(a, start, finish - 1, start, s2, finish);
        WidenShuffle(p, a.Length1, start, finish - 1, start, finish);
        if r.Success? {
          JoinSides(a, start, s2, finish);
        }
      } else {
        r, p := SortBoth(a, start, finish, s2);
      }
    }

    /** rsort on start..s2-1 and then on s2+1..finish: the pivot has columns on both sides. */
    method SortBoth(a: array2<int>, start: int, finish: int, s2: int) returns (r: Result<()>, ghost p: seq<int>)
      requires 2 <= a.Length0 && PivotSplits(a, start, s2, finish) && start < s2 < finish && a.Length1 < TWO_31
      modifies a, numGen
      decreases finish - start, 1
      ensures Shuffle(p, a.Length1, start, finish)
      ensures forall t, c :: 0 <= t < a.Length0 && 0 <= c < a.Length1 ==> a[t, c] == old(a[t, p[c]])
      ensures r.Success? ==> Ascending(a, start, finish)
      ensures r.Failure? ==> r == Failure(Hang) && pivotType == RANDOM_PIVOT
    {
      r, p := SortSide(a, start, s2 - 1, start, s2, finish);
      WidenShuffle(p, a.Length1, start, s2 - 1, start, finish);
      if r.Failure? {
        return;
      }
      label Left:
      ghost var q;
      r, q := SortSide(a, s2 + 1, finish, start, s2, finish);
      WidenShuffle(q, a.Length1, s2 + 1, finish, start, finish);
      ComposeShuffle(p, q, a.Length1, start, finish);
      forall t, c | 0 <= t < a.Length0 && 0 <= c < a.Length1
        ensures a[t, c] == old(a[t, Compose(p, q)[c]])
      {
        assert a[t, c] == old@Left(a[t, q[c]]);
      }
      p := Compose(p, q);
      if r.Success? {
        JoinSides(a, start, s2, finish);
      }
    }

    /** rsort on one side, lo..hi, of the pivot at column s2: the pivot still splits start..finish. */
    method SortSide(a: array2<int>, lo: int, hi: int, start: int, s2: int, finish: int) returns (r: Result<()>, ghost p: seq<int>)
      requires 2 <= a.Length0 && PivotSplits(a, start, s2, finish) && a.Length1 < TWO_31
      requires (lo == start && hi == s2 - 1) || (lo == s2 + 1 && hi == finish)
      modifies a, numGen
      decreases finish - start, 0
      ensures PivotSplits(a, start, s2, finish)
      ensures Shuffle(p, a.Length1, lo, hi)
      ensures forall t, c :: 0 <= t < a.Length0 && 0 <= c < a.Length1 ==> a[t, c] == old(a[t, p[c]])
      ensures forall c :: 0 <= c < a.Length1 && (c < lo || hi < c) ==> a[0, c] == old(a[0, c])
      ensures r.Success? ==> Ascending(a, lo, hi)
      ensures lo == s2 + 1 && old(Ascending(a, start, s2 - 1)) ==> Ascending(a, start, s2 - 1)
      ensures r.Failure? ==> r == Failure(Hang) && pivotType == RANDOM_PIVOT
    {
      r, p := RSort(a, lo, hi);
      assert forall c :: 0 <= c < a.Length1 && (c < lo || hi < c) ==> a[0, c] == old(a[0, c]);
    }
 
    /**
     * sort: rsort's passes driven by an explicit stack of ranges in place of
     * recursion. A range goes to insertion sort when it spans at most
     * useInsertion columns; after a partition both halves are pushed.
     */
    method Sort(a: array2<int>, s: int, f: int) returns (r: Result<()>, ghost p: seq<int>)
      requires f - s < 1 || a.Length0 < 2 || (0 <= s && f < a.Length1)
      requires a.Length1 < TWO_31
      modifies a, numGen
      ensures Shuffle(p, a.Length1, s, f)
      ensures forall t, c :: 0 <= t < a.Length0 && 0 <= c < a.Length1 ==> a[t, c] == old(a[t, p[c]])
      ensures r.Success? && a.Length0 >= 2 ==> Ascending(a, s, f)
      ensures r.Failure? ==> r == Failure(Hang) && pivotType == RANDOM_PIVOT
    {
      p := Identity(a.Length1);
      IdentityShuffle(a.Length1, s, f);
      var stack := [Position(s, f)];
      while stack != []
        invariant Pending(stack, s, f)
        invariant Shuffle(p, a.Length1, s, f)
        invariant forall t, c :: 0 <= t < a.Length0 && 0 <= c < a.Length1 ==> a[t, c] == old(a[t, p[c]])
        invariant a.Length0 >= 2 ==> AscendingBut(Row0(a), stack, s, f)
        decreases Weight(stack)
      {
        label Popped:
        var next;
        ghost var q;
        next, q := Step(a, stack, s, f);
        ComposeShuffle(p, q, a.Length1, s, f);
        forall t, c | 0 <= t < a.Length0 && 0 <= c < a.Length1
          ensures a[t, c] == old(a[t, Compose(p, q)[c]])
        {
          assert a[t, c] == old@Popped(a[t, q[c]]);
        }
        p := Compose(p, q);
        if next.Failure? {
          return Failure(next.error), p;
        }
        stack := next.value;
      }
      r := Success(());
      if a.Length0 >= 2 {
        AscendingFrom(a, s, f);
      }
    }
 
    /**
     * One pass of sort's loop: the range on top of the stack is popped and
     * handled, and the two halves of a partitioned range are pushed.
     */
    method Step(a: array2<int>, stack: seq<Position>, s: int, f: int) returns (r: Result<seq<Position>>, ghost q: seq<int>)
      requires f - s < 1 || a.Length0 < 2 || (0 <= s && f < a.Length1)
      requires a.Length1 < TWO_31
      requires stack != [] && Pending(stack, s, f)
      requires a.Length0 >= 2 ==> AscendingBut(Row0(a), stack, s, f)
      modifies a, numGen
      ensures Shuffle(q, a.Length1, s, f)
      ensures forall t, c :: 0 <= t < a.Length0 && 0 <= c < a.Length1 ==> a[t, c] == old(a[t, q[c]])
      ensures r.Success? ==> Pending(r.value, s, f) && Weight(r.value) < Weight(stack)
      ensures r.Success? && a.Length0 >= 2 ==> AscendingBut(Row0(a), r.value, s, f)
      ensures r.Failure? ==> r == Failure(Hang) && pivotType == RANDOM_PIVOT
    {
      var pos := stack[|stack| - 1];
      var rest := stack[..|stack| - 1];
      assert stack == rest + [pos];
      PendingPop(rest, pos, s, f);
      r, q := Pass(a, rest, pos, s, f);
      WidenShuffle(q, a.Length1, pos.start, pos.finish, s, f);
    }

    /**
     * The range pos just popped off the stack rest + [pos]: done in one go,
     * or split in two with both halves pushed. Row 0 stays in order between
     * columns that share no range left to sort.
     */
    method Pass(a: array2<int>, rest: seq<Position>, pos: Position, s: int, f: int)
      returns (r: Result<seq<Position>>, ghost q: seq<int>)
      requires f - s < 1 || a.Length0 < 2 || (0 <= s && f < a.Length1)
      requires a.Length1 < TWO_31
      requires Pending(rest + [pos], s, f) && Pending(rest, s, f)
      requires pos.start <= pos.finish ==> s <= pos.start && pos.finish <= f
      requires pos.Wide() ==> ApartFrom(rest, pos)
      requires a.Length0 >= 2 ==> AscendingBut(Row0(a), rest + [pos], s, f)
      modifies a, numGen
      ensures Shuffle(q, a.Length1, pos.start, pos.finish)
      ensures forall t, c :: 0 <= t < a.Length0 && 0 <= c < a.Length1 ==> a[t, c] == old(a[t, q[c]])
      ensures r.Success? ==> Pending(r.value, s, f) && Weight(r.value) < Weight(rest + [pos])
      ensures r.Success? && a.Length0 >= 2 ==> AscendingBut(Row0(a), r.value, s, f)
      ensures r.Failure? ==> r == Failure(Hang) && pivotType == RANDOM_PIVOT
    {
      ghost var prev := if a.Length0 >= 2 then Row0(a) else [];
      var parts;
      parts, q := Divide(a, pos.start, pos.finish, useInsertion - 1);
      if parts.Failure? {
        return Failure(parts.error), q;
      }
      if parts.value.None? {
        if a.Length0 >= 2 {
          DoneAt(a, prev, q, rest, pos, s, f);
        }
        WeightPush(rest, pos);
        return Success(rest), q;
      }
      var s2 := parts.value.value;
      if a.Length0 >= 2 {
        PartAt(a, prev, q, rest, pos, s2, s, f);
      }
      PendingSplit(rest, pos, s2, s, f);
      return Success(rest + [Position(pos.start, s2 - 1), Position(s2 + 1, pos.finish)]), q;
    }
  }
}
