/**
 * DynamicFilterFirst: like FilterFirst it hides in the pixels a filter
 * scores highest, but instead of sorting every pixel it streams the scores
 * through a sorted set that never holds more pixels than the message needs.
 * The picker then walks an odometer over the kept pixels from the top: bit
 * within the range, then colour layer, then the next pixel down. Decode
 * builds one picker for the length header and a second, larger one for the
 * body, so it finds the encoded bits only where the pickers' top entries
 * agree.
 */
module DynamicFilterFirst {
  import opened Basics
  import opened Bits
  import opened Raster
  import opened StegoImage
  import opened Protocol
  import opened InsertableMessage
  import opened RetrievedMessage
  import opened FilteredPixels
  import opened FPComparator
  import opened Filters
  import opened Simulation
  import FilterFirst
  import BlindHide

  // ----- how many pixels the picker keeps -----

  /** Java's `/` on an int and a positive divisor: the quotient truncated toward zero. */
  function JavaQuot(a: int, d: int): (q: int)
    requires d >= 1
    ensures a >= 0 ==> q == a / d
    ensures a == q * d + JavaRem(a, d)
  {
    if a >= 0 then a / d else -((-a) / d)
  }

  /**
   * `numpix + 1` with `numpix = messagesize / (bpp * 3)`: the size the
   * picker passes to generateList for a message of `messagesize` bits.
   */
  function KeepCount(messagesize: int, bpp: int): int
    requires bpp >= 1
  {
    JavaQuot(messagesize, bpp * 3) + 1
  }

  /**
   * K pixels, three colours of bpp bits each, have room for every bit of a
   * non-negative message size; the picker keeps at least one pixel exactly
   * when the size is above -(bpp * 3).
   */
  lemma {:induction false} KeepCountMeaning(messagesize: int, bpp: int)
    requires bpp >= 1
    ensures messagesize >= 0 ==> messagesize < KeepCount(messagesize, bpp) * (bpp * 3)
    ensures KeepCount(messagesize, bpp) >= 1 <==> messagesize > -(bpp * 3)
  {
    var m := bpp * 3;
    if messagesize >= 0 {
      BlindHide.DivModFacts(messagesize, m);
      assert KeepCount(messagesize, bpp) * m == m * (messagesize / m) + m;
    } else {
      BlindHide.DivModFacts(-messagesize, m);
      if -messagesize < m {
        ModOfDecomposition(-messagesize, m, 0, -messagesize);
      } else {
        BlindHide.QuotNonNegative(-messagesize - m, m);
        ModOfDecomposition(-messagesize, m, (-messagesize - m) / m + 1, (-messagesize - m) % m);
      }
    }
  }

  // ----- generateList: the streaming selection -----

  /**
   * The test that lets a scanned pixel into a full set. `ByScore` is the
   * code's test, a score strictly above that of the set's first element;
   * `ByComparator` is the comparator's order, which also breaks ties.
   */
  datatype Rule = ByScore | ByComparator

  /** Whether the scanned pixel e takes the place of `least`, the set's first element. */
  predicate Displaces(rule: Rule, e: FilteredPixel, least: FilteredPixel)
  {
    match rule
    case ByScore => e.value > least.value
    case ByComparator => LexLess(least, e)
  }

  /**
   * One pass of the inner loop of generateList on the set `kept`, held
   * ascending by the comparator so that `first()` is kept[0]: the pixel at
   * scan index k is added while k < size; afterwards it replaces the first
   * element when it displaces it. `first()` on an empty set throws.
   */
  function Step(rule: Rule, kept: seq<FilteredPixel>, e: FilteredPixel, k: int, size: int): Result<seq<FilteredPixel>>
  {
    if k < size then Success(Insert(e, kept))
    else if kept == [] then Failure(Crash)
    else if Displaces(rule, e, kept[0]) then Success(Insert(e, kept[1..]))
    else Success(kept)
  }

  /** The set after `entries` were scanned in order. */
  function Scan(rule: Rule, entries: seq<FilteredPixel>, size: int): Result<seq<FilteredPixel>>
    decreases |entries|
  {
    if entries == [] then Success([])
    else
      match Scan(rule, entries[..|entries| - 1], size)
      case Failure(e) => Failure(e)
      case Success(kept) => Step(rule, kept, entries[|entries| - 1], |entries| - 1, size)
  }

  /**
   * generateList(image, filter, size) under the picker's mask: the pixels
   * scanned column by column, pixel (i, j) at index i * H + j, and the set
   * that is left, ascending.
   */
  function Kept(rule: Rule, kind: FilterKind, img: Image, end: int, size: int): Result<seq<FilteredPixel>>
    requires img.Valid()
  {
    Scan(rule, FilterFirst.Scores(kind, img, FilterFirst.PickerMask(end)), size)
  }

  /** One more scanned entry is one more step. */
  lemma {:induction false} ScanStep(rule: Rule, entries: seq<FilteredPixel>, e: FilteredPixel, size: int)
    ensures Scan(rule, entries + [e], size) ==
            match Scan(rule, entries, size)
            case Failure(err) => Failure(err)
            case Success(kept) => Step(rule, kept, e, |entries|, size)
  {
    assert (entries + [e])[..|entries|] == entries;
  }

  /**
   * What the set holds after scanning `scanned` with room for `size`: it is
   * sorted, has min(|scanned|, size) elements drawn from the scanned ones,
   * and holds all of them while no more than `size` were scanned.
   */
  ghost predicate Selection(kept: seq<FilteredPixel>, scanned: seq<FilteredPixel>, size: int)
  {
    Sorted(kept) && |kept| == Min(|scanned|, size) && multiset(kept) <= multiset(scanned) &&
    (|scanned| <= size ==> multiset(kept) == multiset(scanned))
  }

  /**
   * With room for at least one pixel the scan never throws, and the set it
   * builds is a selection of the scanned pixels of the right size.
   */
  lemma {:induction false} ScanShape(rule: Rule, entries: seq<FilteredPixel>, size: int)
    requires size >= 1
    ensures Scan(rule, entries, size).Success?
    ensures Selection(Scan(rule, entries, size).value, entries, size)
    decreases |entries|
  {
    if entries != [] {
      var n := |entries| - 1;
      var prefix := entries[..n];
      ScanShape(rule, prefix, size);
      assert entries == prefix + [entries[n]];
      SelectionStep(rule, Scan(rule, prefix, size).value, prefix, entries[n], size);
    }
  }

  /** One step of the scan keeps a selection a selection. */
  lemma {:induction false} SelectionStep(rule: Rule, kept: seq<FilteredPixel>, scanned: seq<FilteredPixel>, e: FilteredPixel,
                                         size: int)
    requires size >= 1 && Selection(kept, scanned, size)
    ensures Step(rule, kept, e, |scanned|, size).Success?
    ensures Selection(Step(rule, kept, e, |scanned|, size).value, scanned + [e], size)
  {
    assert multiset(scanned + [e]) == multiset(scanned) + multiset{e};
    InsertSorted(e, kept);
    if |scanned| >= size && Displaces(rule, e, kept[0]) {
      assert kept == [kept[0]] + kept[1..];
      assert Sorted(kept[1..]);
      InsertSorted(e, kept[1..]);
    }
  }

  /** Without room for a pixel, `first()` on the empty set throws at the first entry, and the scan fails from there on. */
  lemma {:induction false} ScanNeedsRoom(rule: Rule, entries: seq<FilteredPixel>, size: int)
    requires entries != [] && size <= 0
    ensures Scan(rule, entries, size) == Failure(Crash)
    decreases |entries|
  {
    if |entries| > 1 {
      ScanNeedsRoom(rule, entries[..|entries| - 1], size);
    }
  }

  /** generateList succeeds exactly when the size leaves room for a pixel, and then keeps min(size, W * H) pixels. */
  lemma {:induction false} KeptSucceeds(rule: Rule, kind: FilterKind, img: Image, end: int, size: int)
    requires img.Valid()
    ensures Kept(rule, kind, img, end, size).Success? <==> size >= 1
    ensures Kept(rule, kind, img, end, size).Failure? ==> Kept(rule, kind, img, end, size).error == Crash
    ensures size >= 1 ==> |Kept(rule, kind, img, end, size).value| == Min(size, img.width * img.height)
  {
    FilterFirst.AreaPositive(img);
    var entries := FilterFirst.Scores(kind, img, FilterFirst.PickerMask(end));
    if size >= 1 {
      ScanShape(rule, entries, size);
    } else {
      ScanNeedsRoom(rule, entries, size);
    }
  }

  // ----- what the code's test keeps -----

  /** Every scanned pixel the set does not hold scores no more than the set's first element. */
  ghost predicate Below(kept: seq<FilteredPixel>, scanned: seq<FilteredPixel>)
  {
    kept != [] && forall i :: 0 <= i < |scanned| && scanned[i] !in kept ==> scanned[i].value <= kept[0].value
  }

  /**
   * After a scan with the code's test, every pixel left out scores no more
   * than any pixel kept.
   */
  lemma {:induction false} ExcludedScoreLower(entries: seq<FilteredPixel>, size: int)
    requires entries != [] && size >= 1
    ensures Scan(ByScore, entries, size).Success?
    ensures var kept := Scan(ByScore, entries, size).value;
            forall i, j :: 0 <= i < |entries| && 0 <= j < |kept| && entries[i] !in kept ==>
                             entries[i].value <= kept[j].value
  {
    ScanBelow(entries, size);
    ScanShape(ByScore, entries, size);
  }

  lemma {:induction false} ScanBelow(entries: seq<FilteredPixel>, size: int)
    requires entries != [] && size >= 1
    ensures Scan(ByScore, entries, size).Success?
    ensures Below(Scan(ByScore, entries, size).value, entries)
    decreases |entries|
  {
    var n := |entries| - 1;
    var prefix, e := entries[..n], entries[n];
    assert entries == prefix + [e];
    ScanShape(ByScore, prefix, size);
    var kept := Scan(ByScore, prefix, size).value;
    if n < size {
      AllScannedKept(kept, prefix, size, e);
    } else {
      ScanBelow(prefix, size);
      BelowStep(kept, prefix, size, e);
    }
  }

  /** While the set has room, it holds every scanned pixel, so none is left out. */
  lemma {:induction false} AllScannedKept(kept: seq<FilteredPixel>, scanned: seq<FilteredPixel>, size: int, e: FilteredPixel)
    requires Selection(kept, scanned, size) && |scanned| < size
    ensures Below(Insert(e, kept), scanned + [e])
  {
    var next := Insert(e, kept);
    var all := scanned + [e];
    assert multiset(next) == multiset(all);
    forall i | 0 <= i < |all|
      ensures all[i] in next
    {
      assert all[i] in multiset(all);
    }
  }

  /** A step of the full set keeps every left-out pixel below the first element, which never drops. */
  lemma {:induction false} BelowStep(kept: seq<FilteredPixel>, scanned: seq<FilteredPixel>, size: int, e: FilteredPixel)
    requires size >= 1 && |scanned| >= size && Selection(kept, scanned, size) && Below(kept, scanned)
    ensures Step(ByScore, kept, e, |scanned|, size).Success?
    ensures Below(Step(ByScore, kept, e, |scanned|, size).value, scanned + [e])
    ensures Step(ByScore, kept, e, |scanned|, size).value[0].value >= kept[0].value
  {
    var all := scanned + [e];
    if e.value > kept[0].value {
      var rest := kept[1..];
      var next := Insert(e, rest);
      assert kept == [kept[0]] + rest;
      InsertHead(e, rest);
      if rest != [] {
        assert !LexLess(rest[0], kept[0]);
      }
      forall i | 0 <= i < |all| && all[i] !in next
        ensures all[i].value <= next[0].value
      {
        if i < |scanned| {
          assert all[i] == scanned[i];
          assert all[i] !in rest;
        }
      }
    } else {
      forall i | 0 <= i < |all| && all[i] !in kept
        ensures all[i].value <= kept[0].value
      {
        if i < |scanned| {
          assert all[i] == scanned[i];
        }
      }
    }
  }

  /** The first element after an insertion is the new element or the old first one; the elements are the old ones and the new one. */
  lemma {:induction false} InsertHead(e: FilteredPixel, s: seq<FilteredPixel>)
    ensures Insert(e, s)[0] == e || (s != [] && Insert(e, s)[0] == s[0])
    ensures forall x :: x in Insert(e, s) <==> x == e || x in s
  {
    forall x
      ensures x in Insert(e, s) <==> x == e || x in s
    {
      assert x in Insert(e, s) <==> x in multiset(Insert(e, s));
      assert x in s <==> x in multiset(s);
    }
  }

  /**
   * Once the set is full, the score of its first element, the lowest score
   * kept, never decreases as the scan goes on.
   */
  lemma {:induction false} KeptMinimumRises(entries: seq<FilteredPixel>, size: int, n: nat)
    requires 1 <= size <= n < |entries|
    ensures Scan(ByScore, entries[..n], size).Success? && Scan(ByScore, entries[..n + 1], size).Success?
    ensures Scan(ByScore, entries[..n], size).value != []
    ensures Scan(ByScore, entries[..n + 1], size).value[0].value >= Scan(ByScore, entries[..n], size).value[0].value
  {
    var prefix := entries[..n];
    assert entries[..n + 1] == prefix + [entries[n]];
    ScanShape(ByScore, prefix, size);
    ScanBelow(prefix, size);
    BelowStep(Scan(ByScore, prefix, size).value, prefix, size, entries[n]);
  }

  // ----- the set the scan leaves: the top of a ranking -----

  /** The last min(k, |r|) elements of r: the k highest entries of an ascending list. */
  function Top(r: seq<FilteredPixel>, k: nat): seq<FilteredPixel>
  {
    r[|r| - Min(k, |r|)..]
  }

  /** No record occurs twice. */
  ghost predicate NoDuplicates(s: seq<FilteredPixel>)
  {
    forall i, j :: 0 <= i < j < |s| ==> s[i] != s[j]
  }

  /** No two records share a score. */
  ghost predicate DistinctValues(s: seq<FilteredPixel>)
  {
    forall i, j :: 0 <= i < j < |s| ==> s[i].value != s[j].value
  }

  /**
   * With the comparator's test, or with the code's test on scores that never
   * tie, the scan keeps exactly the `size` entries that come last in
   * comparator order: the top of the sorted list.
   */
  lemma {:induction false} ScanIsTop(rule: Rule, entries: seq<FilteredPixel>, size: int)
    requires size >= 1 && Untied(rule, entries)
    ensures Scan(rule, entries, size) == Success(Top(SortSeq(entries), size))
    decreases |entries|
  {
    if entries != [] {
      var n := |entries| - 1;
      var prefix, e := entries[..n], entries[n];
      UntiedPrefix(rule, entries);
      ScanIsTop(rule, prefix, size);
      SortSeqSorted(prefix);
      UntiedLastApart(rule, entries);
      NewEntryApart(rule, entries, size);
      TopStep(rule, SortSeq(prefix), e, size);
      SortSeqSnoc(entries);
    }
  }

  /** No record twice and, under the code's test, no tied scores. */
  ghost predicate Untied(rule: Rule, entries: seq<FilteredPixel>)
  {
    NoDuplicates(entries) && (rule == ByComparator || DistinctValues(entries))
  }

  lemma {:induction false} UntiedPrefix(rule: Rule, entries: seq<FilteredPixel>)
    requires entries != [] && Untied(rule, entries)
    ensures Untied(rule, entries[..|entries| - 1])
  {
  }

  /** Sorting one more entry inserts it into the sorted rest. */
  lemma {:induction false} SortSeqSnoc(entries: seq<FilteredPixel>)
    requires entries != []
    ensures SortSeq(entries) == Insert(entries[|entries| - 1], SortSeq(entries[..|entries| - 1]))
  {
  }

  /** e is not the record `least` and, under the code's test, does not tie with its score. */
  predicate Apart(rule: Rule, e: FilteredPixel, least: FilteredPixel)
  {
    e != least && (rule == ByComparator || e.value != least.value)
  }

  /** The last entry is apart from every earlier one. */
  ghost predicate LastApart(rule: Rule, entries: seq<FilteredPixel>)
    requires entries != []
  {
    forall k :: 0 <= k < |entries| - 1 ==> Apart(rule, entries[|entries| - 1], entries[k])
  }

  /** Without repeated records or, under the code's test, tied scores, the last entry is apart from the rest. */
  lemma {:induction false} UntiedLastApart(rule: Rule, entries: seq<FilteredPixel>)
    requires entries != [] && Untied(rule, entries)
    ensures LastApart(rule, entries)
  {
  }

  /** The last entry is apart from the lowest kept one of the sorted earlier entries. */
  lemma {:induction false} NewEntryApart(rule: Rule, entries: seq<FilteredPixel>, size: int)
    requires entries != [] && size >= 1 && LastApart(rule, entries)
    ensures var r := SortSeq(entries[..|entries| - 1]);
            |r| >= size ==> Apart(rule, entries[|entries| - 1], r[|r| - size])
  {
    var r := SortSeq(entries[..|entries| - 1]);
    if |r| >= size {
      var x := r[|r| - size];
      assert x in r;
      ApartFromSorted(rule, entries, x);
    }
  }

  /** The last entry is apart from every record of the sorted earlier entries. */
  lemma {:induction false} ApartFromSorted(rule: Rule, entries: seq<FilteredPixel>, x: FilteredPixel)
    requires entries != [] && LastApart(rule, entries) && x in SortSeq(entries[..|entries| - 1])
    ensures Apart(rule, entries[|entries| - 1], x)
  {
    var k := EarlierIndex(entries, x);
    assert Apart(rule, entries[|entries| - 1], entries[k]);
  }

  /** Every record of the sorted prefix sits at some earlier index of the entries. */
  lemma {:induction false} EarlierIndex(entries: seq<FilteredPixel>, x: FilteredPixel) returns (k: nat)
    requires entries != [] && x in SortSeq(entries[..|entries| - 1])
    ensures k < |entries| - 1 && entries[k] == x
  {
    var prefix := entries[..|entries| - 1];
    assert x in multiset(SortSeq(prefix));
    assert x in multiset(prefix);
    k :| 0 <= k < |prefix| && prefix[k] == x;
  }

  /**
   * One step of the scan on the top of a sorted list is the top of the list
   * with the new entry inserted, provided the entry is not the list's
   * lowest kept one and, under the code's test, does not tie with it.
   */
  lemma {:induction false} TopStep(rule: Rule, r: seq<FilteredPixel>, e: FilteredPixel, size: int)
    requires size >= 1 && Sorted(r)
    requires |r| >= size ==> Apart(rule, e, r[|r| - size])
    ensures Step(rule, Top(r, size), e, |r|, size) == Success(Top(Insert(e, r), size))
  {
    if |r| >= size {
      if Displaces(rule, e, r[|r| - size]) {
        TopDisplaced(rule, r, e, size);
      } else {
        TopKept(rule, r, e, size);
      }
    } else {
      assert Top(r, size) == r;
    }
  }

  /** A full set whose lowest kept entry is displaced: the top of the list with e inserted. */
  lemma {:induction false} TopDisplaced(rule: Rule, r: seq<FilteredPixel>, e: FilteredPixel, size: int)
    requires size >= 1 && Sorted(r) && |r| >= size
    requires Apart(rule, e, r[|r| - size]) && Displaces(rule, e, r[|r| - size])
    ensures Step(rule, Top(r, size), e, |r|, size) == Success(Top(Insert(e, r), size))
  {
    var i := |r| - size;
    assert Top(r, size) == r[i..];
    assert r[i..][1..] == r[i + 1..];
    InsertSuffix(e, r, i + 1);
  }

  /** A full set whose lowest kept entry stays: the top is unchanged by inserting e below it. */
  lemma {:induction false} TopKept(rule: Rule, r: seq<FilteredPixel>, e: FilteredPixel, size: int)
    requires size >= 1 && Sorted(r) && |r| >= size
    requires Apart(rule, e, r[|r| - size]) && !Displaces(rule, e, r[|r| - size])
    ensures Step(rule, Top(r, size), e, |r|, size) == Success(Top(Insert(e, r), size))
  {
    var i := |r| - size;
    assert Top(r, size) == r[i..];
    InsertBelow(e, r, i);
  }

  /** Inserting above r[i - 1] leaves r[..i] in front and inserts into the rest. */
  lemma {:induction false} InsertSuffix(e: FilteredPixel, r: seq<FilteredPixel>, i: int)
    requires Sorted(r) && 0 < i <= |r| && LexLess(r[i - 1], e)
    ensures Insert(e, r)[i..] == Insert(e, r[i..])
    decreases i
  {
    assert LexLess(r[0], e);
    var tail := Insert(e, r[1..]);
    assert Insert(e, r) == [r[0]] + tail;
    assert Insert(e, r)[i..] == tail[i - 1..];
    if i > 1 {
      InsertSuffix(e, r[1..], i - 1);
      assert r[1..][i - 1..] == r[i..];
    } else {
      assert r[1..] == r[i..];
    }
  }

  /** Inserting below r[i] shifts r[i..] up by one place. */
  lemma {:induction false} InsertBelow(e: FilteredPixel, r: seq<FilteredPixel>, i: int)
    requires Sorted(r) && 0 <= i < |r| && LexLess(e, r[i])
    ensures Insert(e, r)[i + 1..] == r[i..]
    decreases i
  {
    if LexLess(r[0], e) {
      assert r == [r[0]] + r[1..];
      InsertBelow(e, r[1..], i - 1);
      assert r[1..][i - 1..] == r[i..];
    } else {
      assert ([e] + r)[i + 1..] == r[i..];
    }
  }

  /** Each scored pixel names its own position, so none occurs twice. */
  lemma {:induction false} ScoresNoDuplicates(kind: FilterKind, img: Image, mask: bv32)
    requires img.Valid()
    ensures NoDuplicates(FilterFirst.Scores(kind, img, mask))
  {
    var s := FilterFirst.Scores(kind, img, mask);
    FilterFirst.ScoresOrder(kind, img, mask);
    FilterFirst.ColumnMajorDistinct(s, img);
    forall i, j | 0 <= i < j < |s|
      ensures s[i] != s[j]
    {
      assert FilterFirst.Apart(s[i], s[j]);
    }
  }

  /**
   * generateList with the comparator's test, or with scores that never tie,
   * keeps the `size` top entries of FilterFirst's ranking of the same image.
   */
  lemma {:induction false} KeptIsRankingTop(rule: Rule, kind: FilterKind, img: Image, end: int, size: int)
    requires img.Valid() && size >= 1
    requires rule == ByComparator || DistinctValues(FilterFirst.Scores(kind, img, FilterFirst.PickerMask(end)))
    ensures Kept(rule, kind, img, end, size) == Success(Top(FilterFirst.Ranking(kind, img, end), size))
  {
    ScoresNoDuplicates(kind, img, FilterFirst.PickerMask(end));
    ScanIsTop(rule, FilterFirst.Scores(kind, img, FilterFirst.PickerMask(end)), size);
  }

  // ----- ties under the code's test -----

  /** Strictly ascending in comparator order. */
  ghost predicate Ascending(s: seq<FilteredPixel>)
  {
    forall i, j :: 0 <= i < j < |s| ==> LexLess(s[i], s[j])
  }

  /** Every record has the same score. */
  ghost predicate AllTied(s: seq<FilteredPixel>)
  {
    forall i, j :: 0 <= i < |s| && 0 <= j < |s| ==> s[i].value == s[j].value
  }

  /** Inserting a record that comes after every element appends it. */
  lemma {:induction false} InsertLast(e: FilteredPixel, s: seq<FilteredPixel>)
    requires forall i :: 0 <= i < |s| ==> LexLess(s[i], e)
    ensures Insert(e, s) == s + [e]
    decreases |s|
  {
    if s != [] {
      InsertLast(e, s[1..]);
      assert s == [s[0]] + s[1..];
    }
  }

  /**
   * When every scanned pixel scores the same and they arrive in ascending
   * comparator order, the code's strict test never lets a later pixel in:
   * the set is the first `size` pixels scanned.
   */
  lemma {:induction false} TiedScanKeepsFirst(entries: seq<FilteredPixel>, size: int)
    requires size >= 1 && Ascending(entries) && AllTied(entries)
    ensures Scan(ByScore, entries, size) == Success(entries[..Min(size, |entries|)])
    decreases |entries|
  {
    if entries != [] {
      var n := |entries| - 1;
      var prefix, e := entries[..n], entries[n];
      ScanTiedPrefix(entries, n);
      TiedScanKeepsFirst(prefix, size);
      assert prefix[..Min(size, n)] == entries[..Min(size, n)];
      TiedStep(entries, size);
      assert Scan(ByScore, entries, size) == Step(ByScore, entries[..Min(size, n)], e, n, size);
    }
  }

  /** One step of the tied scan: the next pixel is appended while there is room, and ignored after. */
  lemma {:induction false} TiedStep(entries: seq<FilteredPixel>, size: int)
    requires size >= 1 && entries != [] && Ascending(entries) && AllTied(entries)
    ensures var n := |entries| - 1;
            Step(ByScore, entries[..Min(size, n)], entries[n], n, size) == Success(entries[..Min(size, n + 1)])
  {
    var n := |entries| - 1;
    var e := entries[n];
    if n < size {
      InsertLast(e, entries[..n]);
      assert entries[..n] + [e] == entries[..n + 1];
    } else {
      assert entries[..Min(size, n)][0] == entries[0];
    }
  }

  /** A prefix of an ascending, tied sequence is ascending and tied. */
  lemma {:induction false} ScanTiedPrefix(entries: seq<FilteredPixel>, n: nat)
    requires Ascending(entries) && AllTied(entries) && n <= |entries|
    ensures Ascending(entries[..n]) && AllTied(entries[..n])
  {
  }

  /** Column-major scanning meets the pixels in ascending (x, y) order. */
  lemma {:induction false} ColumnMajorAscends(img: Image, k: int, l: int)
    requires img.Valid() && 0 <= k < l < img.width * img.height
    ensures k / img.height < l / img.height || (k / img.height == l / img.height && k % img.height < l % img.height)
  {
    var h := img.height;
    FilterFirst.EntryBounds(img, k);
    FilterFirst.EntryBounds(img, l);
    if k / h > l / h {
      MulGap(h, l / h, k / h);
      assert false;
    }
  }

  /**
   * On an image of one colour every pixel scores 0, so the code's test keeps
   * the first `size` pixels of the scan.
   */
  lemma {:induction false} FlatKeepsFirst(kind: FilterKind, img: Image, p: bv32, end: int, size: int)
    requires Flat(img, p) && size >= 1
    ensures Kept(ByScore, kind, img, end, size) ==
            Success(FilterFirst.Scores(kind, img, FilterFirst.PickerMask(end))[..Min(size, img.width * img.height)])
  {
    var mask := FilterFirst.PickerMask(end);
    var s := FilterFirst.Scores(kind, img, mask);
    var n := img.width * img.height;
    forall i | 0 <= i < n
      ensures s[i].value == 0
    {
      FilterFirst.ScoresAt(kind, img, mask, n, i);
      FilterFirst.EntryBounds(img, i);
      FlatFiltersToZero(kind, img, p, mask, i / img.height, i % img.height);
    }
    forall i, j | 0 <= i < j < n
      ensures LexLess(s[i], s[j])
    {
      FilterFirst.ScoresPosition(kind, img, mask, i);
      FilterFirst.ScoresPosition(kind, img, mask, j);
      ColumnMajorAscends(img, i, j);
    }
    TiedScanKeepsFirst(s, size);
  }

  // ----- the picker: an odometer over the kept pixels -----

  /**
   * mBitCount, mColour, mArrayPos: the bit within the range, the colour
   * layer, and how many places below the top of the list the picker is.
   */
  datatype Odometer = Odometer(bitCount: int, colour: int, arrayPos: int)

  /** The counters' step after each shot, and in each pass of the constructor's ignore loop. */
  function Advance(o: Odometer, bpp: int): Odometer
  {
    if o.bitCount + 1 >= bpp then
      if o.colour + 1 >= 3 then Odometer(0, 0, o.arrayPos + 1) else Odometer(0, o.colour + 1, o.arrayPos)
    else Odometer(o.bitCount + 1, o.colour, o.arrayPos)
  }

  /** The counters after n steps from zero. */
  function AdvanceBy(bpp: int, n: nat): Odometer
  {
    if n == 0 then Odometer(0, 0, 0) else Advance(AdvanceBy(bpp, n - 1), bpp)
  }

  /** The counters show n in mixed radix: bits of bpp, three colours, then pixels. */
  ghost predicate Reads(o: Odometer, bpp: int, n: int)
  {
    0 <= o.bitCount < bpp && 0 <= o.colour < 3 && 0 <= o.arrayPos &&
    n == (o.arrayPos * 3 + o.colour) * bpp + o.bitCount
  }

  /** After n steps the counters show n. */
  lemma {:induction false} OdometerReads(bpp: int, n: nat)
    requires bpp >= 1
    ensures Reads(AdvanceBy(bpp, n), bpp, n)
  {
    if n > 0 {
      OdometerReads(bpp, n - 1);
      var o := AdvanceBy(bpp, n - 1);
      var d := o.arrayPos * 3 + o.colour;
      if o.bitCount + 1 >= bpp {
        assert d * bpp + bpp == (d + 1) * bpp;
      }
    }
  }

  /** Below k pixels' worth of bits the picker is within k places of the top. */
  lemma {:induction false} ReadsBelow(o: Odometer, bpp: int, n: int, k: int)
    requires Reads(o, bpp, n) && n < k * (bpp * 3)
    ensures o.arrayPos < k
  {
    if o.arrayPos >= k {
      BlindHide.MulMono(bpp * 3, k, o.arrayPos);
      assert false;
    }
  }

  /**
   * getShot with the counters at o: the pixel arrayPos places below the top
   * of the list, with the counters' colour and bit; below the bottom of the
   * list the array index is negative and the call throws.
   */
  function ShotOf(kept: seq<FilteredPixel>, o: Odometer): (r: Result<Shot>)
    ensures r.Failure? ==> r.error == Crash
  {
    var idx := |kept| - o.arrayPos - 1;
    if 0 <= idx < |kept| then Success(Shot(kept[idx].x, kept[idx].y, o.bitCount, o.colour)) else Failure(Crash)
  }

  /** Call i of getShot, counting the ignored calls, on a picker over `kept`. */
  function Call(kept: seq<FilteredPixel>, bpp: int, i: nat): Result<Shot>
  {
    ShotOf(kept, AdvanceBy(bpp, i))
  }

  /** The shots of calls lo .. lo + n - 1; the first call that throws ends the run. */
  function Run(kept: seq<FilteredPixel>, bpp: int, lo: nat, n: nat): (r: Result<seq<Shot>>)
    ensures r.Success? ==> |r.value| == n
    ensures r.Failure? ==> r.error == Crash
  {
    if n == 0 then Success([])
    else
      match Run(kept, bpp, lo, n - 1)
      case Failure(e) => Failure(e)
      case Success(shots) =>
        match Call(kept, bpp, lo + n - 1)
        case Failure(e) => Failure(e)
        case Success(s) => Success(shots + [s])
  }

  /** A run succeeds exactly when each of its calls does, and holds their shots in order. */
  lemma {:induction false} RunCalls(kept: seq<FilteredPixel>, bpp: int, lo: nat, n: nat)
    ensures Run(kept, bpp, lo, n).Success? <==> forall i: nat :: lo <= i < lo + n ==> Call(kept, bpp, i).Success?
    ensures Run(kept, bpp, lo, n).Success? ==>
              forall i: nat :: lo <= i < lo + n ==> Success(Run(kept, bpp, lo, n).value[i - lo]) == Call(kept, bpp, i)
  {
    if n > 0 {
      RunCalls(kept, bpp, lo, n - 1);
    }
  }

  /** A run of a + b calls is a run of a calls followed by a run of b calls. */
  lemma {:induction false} RunSplit(kept: seq<FilteredPixel>, bpp: int, lo: nat, a: nat, b: nat)
    ensures Run(kept, bpp, lo, a + b).Success? <==> Run(kept, bpp, lo, a).Success? && Run(kept, bpp, lo + a, b).Success?
    ensures Run(kept, bpp, lo, a + b).Success? ==>
              Run(kept, bpp, lo, a + b).value == Run(kept, bpp, lo, a).value + Run(kept, bpp, lo + a, b).value
  {
    RunCalls(kept, bpp, lo, a + b);
    RunCalls(kept, bpp, lo, a);
    RunCalls(kept, bpp, lo + a, b);
    if Run(kept, bpp, lo, a + b).Success? {
      var x, y, z := Run(kept, bpp, lo, a).value, Run(kept, bpp, lo + a, b).value, Run(kept, bpp, lo, a + b).value;
      forall i | 0 <= i < a + b
        ensures z[i] == (x + y)[i]
      {
        assert Success(z[i]) == Call(kept, bpp, lo + i);
      }
    }
  }

  /** The first a shots of a run from call 0 and the b shots after them are runs of their own. */
  lemma {:induction false} RunParts(kept: seq<FilteredPixel>, bpp: int, a: nat, b: nat, shots: seq<Shot>)
    requires Run(kept, bpp, 0, a + b) == Success(shots)
    ensures |shots| == a + b
    ensures Run(kept, bpp, 0, a) == Success(shots[..a]) && Run(kept, bpp, a, b) == Success(shots[a..])
  {
    RunSplit(kept, bpp, 0, a, b);
    var x, y := Run(kept, bpp, 0, a).value, Run(kept, bpp, a, b).value;
    assert shots == x + y;
    assert shots[..a] == x;
    assert shots[a..] == y;
  }

  /** Within the first min(k, |r|) pixels the picker cannot tell the top k of a list from the list. */
  lemma {:induction false} CallOnTop(r: seq<FilteredPixel>, k: nat, bpp: int, i: nat)
    requires bpp >= 1 && i < Min(k, |r|) * (bpp * 3)
    ensures Call(Top(r, k), bpp, i) == Call(r, bpp, i)
  {
    OdometerReads(bpp, i);
    ReadsBelow(AdvanceBy(bpp, i), bpp, i, Min(k, |r|));
  }

  /** A run that stays within the top k pixels is the same on the top k as on the whole list. */
  lemma {:induction false} RunOnTop(r: seq<FilteredPixel>, k: nat, bpp: int, lo: nat, n: nat)
    requires bpp >= 1 && lo + n <= Min(k, |r|) * (bpp * 3)
    ensures Run(Top(r, k), bpp, lo, n) == Run(r, bpp, lo, n)
  {
    if n > 0 {
      RunOnTop(r, k, bpp, lo, n - 1);
      CallOnTop(r, k, bpp, lo + n - 1);
    }
  }

  /**
   * A picker over distinct pixels of the image, asked for no more than the
   * list has bits: no call throws, every shot is in the image, on a colour
   * layer, below bpp, and no two shots name the same bit.
   */
  lemma {:induction false} RunUsable(kept: seq<FilteredPixel>, img: Image, bpp: int, lo: nat, n: nat)
    requires 1 <= bpp <= 7 && FilterFirst.PositionsIn(kept, img) && FilterFirst.DistinctPositions(kept)
    requires lo + n <= |kept| * (bpp * 3)
    ensures Run(kept, bpp, lo, n).Success?
    ensures AllInBounds(img, Run(kept, bpp, lo, n).value)
    ensures DistinctAddresses(Run(kept, bpp, lo, n).value)
    ensures FilterFirst.LowBits(Run(kept, bpp, lo, n).value, bpp - 1)
  {
    forall i: nat | lo <= i < lo + n
      ensures Call(kept, bpp, i).Success?
    {
      CallUsable(kept, img, bpp, i);
    }
    RunCalls(kept, bpp, lo, n);
    var shots := Run(kept, bpp, lo, n).value;
    forall i | 0 <= i < n
      ensures img.InBounds(shots[i].x, shots[i].y) && 0 <= shots[i].layer < 3 && 0 <= shots[i].bitPos < bpp
    {
      CallUsable(kept, img, bpp, lo + i);
      assert Success(shots[i]) == Call(kept, bpp, lo + i);
    }
    forall i, j | 0 <= i < j < n
      ensures Addr(shots[i]) != Addr(shots[j])
    {
      CallsApart(kept, bpp, lo + i, lo + j);
      assert Success(shots[i]) == Call(kept, bpp, lo + i);
      assert Success(shots[j]) == Call(kept, bpp, lo + j);
    }
  }

  /** Within the list's bits, call i succeeds with a shot inside the image, on a colour layer, below bpp. */
  lemma {:induction false} CallUsable(kept: seq<FilteredPixel>, img: Image, bpp: int, i: nat)
    requires bpp >= 1 && FilterFirst.PositionsIn(kept, img) && i < |kept| * (bpp * 3)
    ensures Call(kept, bpp, i).Success?
    ensures var s := Call(kept, bpp, i).value;
            img.InBounds(s.x, s.y) && 0 <= s.layer < 3 && 0 <= s.bitPos < bpp
  {
    OdometerReads(bpp, i);
    ReadsBelow(AdvanceBy(bpp, i), bpp, i, |kept|);
  }

  /** Within the list's bits, two different calls name two different bits. */
  lemma {:induction false} CallsApart(kept: seq<FilteredPixel>, bpp: int, i: nat, j: nat)
    requires 1 <= bpp <= 7 && FilterFirst.DistinctPositions(kept) && i < j < |kept| * (bpp * 3)
    ensures Call(kept, bpp, i).Success? && Call(kept, bpp, j).Success?
    ensures Addr(Call(kept, bpp, i).value) != Addr(Call(kept, bpp, j).value)
  {
    var o, q := AdvanceBy(bpp, i), AdvanceBy(bpp, j);
    OdometerReads(bpp, i);
    OdometerReads(bpp, j);
    ReadsBelow(o, bpp, i, |kept|);
    ReadsBelow(q, bpp, j, |kept|);
    var s, t := Call(kept, bpp, i).value, Call(kept, bpp, j).value;
    if o.arrayPos != q.arrayPos {
      assert FilterFirst.Apart(kept[|kept| - o.arrayPos - 1], kept[|kept| - q.arrayPos - 1]);
    } else if Addr(s) == Addr(t) {
      LayerPosInjective(s.layer, s.bitPos, t.layer, t.bitPos);
      assert false;
    }
  }

  /** Every shot of a run lands on a pixel of the list. */
  lemma {:induction false} RunWithin(kept: seq<FilteredPixel>, bpp: int, lo: nat, n: nat)
    requires Run(kept, bpp, lo, n).Success?
    ensures forall i :: 0 <= i < n ==>
              exists j :: 0 <= j < |kept| && Run(kept, bpp, lo, n).value[i].x == kept[j].x &&
                                             Run(kept, bpp, lo, n).value[i].y == kept[j].y
  {
    RunCalls(kept, bpp, lo, n);
    var shots := Run(kept, bpp, lo, n).value;
    forall i | 0 <= i < n
      ensures exists j :: 0 <= j < |kept| && shots[i].x == kept[j].x && shots[i].y == kept[j].y
    {
      assert Success(shots[i]) == Call(kept, bpp, lo + i);
      var j := |kept| - AdvanceBy(bpp, lo + i).arrayPos - 1;
      assert shots[i].x == kept[j].x && shots[i].y == kept[j].y;
    }
  }

  // ----- what encode, decode and the simulation compute -----

  /** The scores the picker ranks by, with the code's test, never tie, or the comparator's test is used. */
  ghost predicate UntiedScores(rule: Rule, kind: FilterKind, img: Image, end: int)
    requires img.Valid()
  {
    rule == ByComparator || DistinctValues(FilterFirst.Scores(kind, img, FilterFirst.PickerMask(end)))
  }

  /**
   * The shots encode makes: a picker kept for the 32 header bits and all of
   * the message, then one call per header bit and per message bit still to
   * be delivered.
   */
  function EncodeShots(rule: Rule, kind: FilterKind, img: Image, file: seq<Byte>, delivered: nat, start: int, end: int)
    : Result<seq<Shot>>
    requires img.Valid() && FilterFirst.ValidRange(start, end) && delivered <= 8 * |file|
  {
    var bpp := FilterFirst.BitsPerPixel(start, end);
    match Kept(rule, kind, img, end, KeepCount(I32(8 * |file| + 32), bpp))
    case Failure(e) => Failure(e)
    case Success(kept) => Run(kept, bpp, 0, |EncodedBits(file, delivered)|)
  }

  /** encode: refuse a message that does not fit; otherwise write the size header and the message bits at encode's shots. */
  function EncodeOn(rule: Rule, kind: FilterKind, img: Image, file: seq<Byte>, delivered: nat, start: int, end: int)
    : Result<StegoImage>
    requires img.Valid() && FilterFirst.ValidRange(start, end) && delivered <= 8 * |file|
  {
    var bpp := FilterFirst.BitsPerPixel(start, end);
    if !WillMessageFit(|file|, img.width, img.height, FilterFirst.Layers(img), bpp) then Failure(IllegalArgument)
    else EncodeFitting(rule, kind, img, file, delivered, start, end)
  }

  /** encode once the message fits: write the size header and the message bits at encode's shots. */
  function EncodeFitting(rule: Rule, kind: FilterKind, img: Image, file: seq<Byte>, delivered: nat, start: int, end: int)
    : Result<StegoImage>
    requires img.Valid() && FilterFirst.ValidRange(start, end) && delivered <= 8 * |file|
  {
    match EncodeShots(rule, kind, img, file, delivered, start, end)
    case Failure(e) => Failure(e)
    case Success(shots) =>
      match WriteBits(img, shots, EncodedBits(file, delivered))
      case Failure(e) => Failure(e)
      case Success(w) => Success(StegoImage(w))
  }

  /** The 32 shots decode reads the size header from: a picker kept for 50 bits. */
  function HeaderShots(rule: Rule, kind: FilterKind, img: Image, start: int, end: int): Result<seq<Shot>>
    requires img.Valid() && FilterFirst.ValidRange(start, end)
  {
    var bpp := FilterFirst.BitsPerPixel(start, end);
    match Kept(rule, kind, img, end, KeepCount(50, bpp))
    case Failure(e) => Failure(e)
    case Success(first) => Run(first, bpp, 0, 32)
  }

  /**
   * The shots decode reads `length` body bits from: a second picker, kept
   * for `length + 50` bits in int arithmetic, whose first 32 calls the
   * constructor skips.
   */
  function BodyShots(rule: Rule, kind: FilterKind, img: Image, start: int, end: int, length: nat): Result<seq<Shot>>
    requires img.Valid() && FilterFirst.ValidRange(start, end)
  {
    var bpp := FilterFirst.BitsPerPixel(start, end);
    match Kept(rule, kind, img, end, KeepCount(I32(length + 50), bpp))
    case Failure(e) => Failure(e)
    case Success(second) => Run(second, bpp, 32, length)
  }

  /**
   * decode: read the header at the header shots, turn the size into a bit
   * count, and go on with that count.
   */
  function DecodeOn(rule: Rule, kind: FilterKind, s: StegoImage, start: int, end: int): Result<seq<Byte>>
    requires s.Valid() && FilterFirst.ValidRange(start, end)
  {
    match HeaderShots(rule, kind, s.image, start, end)
    case Failure(e) => Failure(e)
    case Success(hs) =>
      match ReadBits(s.image, hs)
      case Failure(e) => Failure(e)
      case Success(header) => DecodeLength(rule, kind, s, start, end, BodyLength(HeaderValue(header)))
  }

  /**
   * decode once the header gave `length` bits: reject an implausible count,
   * read that many bits at the body shots and pack them into bytes.
   */
  function DecodeLength(rule: Rule, kind: FilterKind, s: StegoImage, start: int, end: int, length: int)
    : Result<seq<Byte>>
    requires s.Valid() && FilterFirst.ValidRange(start, end)
  {
    var bpp := FilterFirst.BitsPerPixel(start, end);
    if Implausible(length, ImageSpace(s.image.width, s.image.height, GetLayerCount(s), bpp)) then Failure(NoMessage)
    else
      match BodyShots(rule, kind, s.image, start, end, length)
      case Failure(e) => Failure(e)
      case Success(bs) =>
        match ReadBits(s.image, bs)
        case Failure(e) => Failure(e)
        case Success(body) => Success(Pack(body))
  }

  /** The shots outputSimulation makes: a picker kept for `8 * size + 50` bits, then one call per bit encode would write. */
  function SimulationShots(rule: Rule, kind: FilterKind, img: Image, size: nat, delivered: nat, start: int, end: int)
    : Result<seq<Shot>>
    requires img.Valid() && FilterFirst.ValidRange(start, end) && delivered <= 8 * size
  {
    var bpp := FilterFirst.BitsPerPixel(start, end);
    match Kept(rule, kind, img, end, KeepCount(I32(8 * size + 50), bpp))
    case Failure(e) => Failure(e)
    case Success(kept) => Run(kept, bpp, 0, 32 + (8 * size - delivered))
  }

  /** outputSimulation: refuse a message that does not fit; otherwise black the cover out and lighten every shot's pixel. */
  function SimulationOn(rule: Rule, kind: FilterKind, img: Image, size: nat, delivered: nat, start: int, end: int)
    : Result<Image>
    requires img.Valid() && FilterFirst.ValidRange(start, end) && delivered <= 8 * size
  {
    var bpp := FilterFirst.BitsPerPixel(start, end);
    if !WillMessageFit(size, img.width, img.height, FilterFirst.Layers(img), bpp) then Failure(IllegalArgument)
    else SimulationFitting(rule, kind, img, size, delivered, start, end)
  }

  /** outputSimulation once the message fits: black the cover out and lighten every shot's pixel. */
  function SimulationFitting(rule: Rule, kind: FilterKind, img: Image, size: nat, delivered: nat, start: int, end: int)
    : Result<Image>
    requires img.Valid() && FilterFirst.ValidRange(start, end) && delivered <= 8 * size
  {
    match SimulationShots(rule, kind, img, size, delivered, start, end)
    case Failure(e) => Failure(e)
    case Success(shots) => Mark(Blacken(img), shots)
  }

  // ----- every picker walks FilterFirst's ranking from the top -----

  /**
   * When the scores do not tie under the rule, a picker kept for
   * `messagesize` bits makes, for its first `messagesize` calls, exactly the
   * shots of a picker over the whole ranking.
   */
  lemma {:induction false} PickerWalksRanking(rule: Rule, kind: FilterKind, img: Image, start: int, end: int,
                                              messagesize: int, lo: nat, n: nat)
    requires img.Valid() && FilterFirst.ValidRange(start, end) && UntiedScores(rule, kind, img, end)
    requires lo + n <= messagesize
    requires lo + n <= img.width * img.height * (FilterFirst.BitsPerPixel(start, end) * 3)
    ensures Kept(rule, kind, img, end, KeepCount(messagesize, FilterFirst.BitsPerPixel(start, end))).Success?
    ensures Run(Kept(rule, kind, img, end, KeepCount(messagesize, FilterFirst.BitsPerPixel(start, end))).value,
                FilterFirst.BitsPerPixel(start, end), lo, n) ==
            Run(FilterFirst.Ranking(kind, img, end), FilterFirst.BitsPerPixel(start, end), lo, n)
  {
    var bpp := FilterFirst.BitsPerPixel(start, end);
    var k := KeepCount(messagesize, bpp);
    var r := FilterFirst.Ranking(kind, img, end);
    KeepCountMeaning(messagesize, bpp);
    KeptIsRankingTop(rule, kind, img, end, k);
    RunOnTop(r, k, bpp, lo, n);
  }

  /** The shots on the cover and the image encode writes, when a message fits and nothing overflows. */
  lemma {:induction false} EncodeWrites(rule: Rule, kind: FilterKind, img: Image, file: seq<Byte>, start: int, end: int)
    returns (shots: seq<Shot>, out: Image)
    requires img.Valid() && FilterFirst.ValidRange(start, end) && UntiedScores(rule, kind, img, end)
    requires 8 * |file| + 50 < TWO_31
    requires BlindHide.Addresses(img.width, img.height, FilterFirst.BitsPerPixel(start, end)) < TWO_31
    requires WillMessageFit(|file|, img.width, img.height, FilterFirst.Layers(img), FilterFirst.BitsPerPixel(start, end))
    ensures Run(FilterFirst.Ranking(kind, img, end), FilterFirst.BitsPerPixel(start, end), 0, 32 + 8 * |file|) ==
            Success(shots)
    ensures EncodeShots(rule, kind, img, file, 0, start, end) == Success(shots)
    ensures AllInBounds(img, shots) && DistinctAddresses(shots) && FilterFirst.LowBits(shots, end)
    ensures WriteBits(img, shots, HeaderBits(I32(|file|)) + MessageBits(file)) == Success(out)
    ensures EncodeOn(rule, kind, img, file, 0, start, end) == Success(StegoImage(out))
  {
    var bpp := FilterFirst.BitsPerPixel(start, end);
    var n := 32 + 8 * |file|;
    RoomForMessage(img, |file|, start, end);
    PickerWalksRanking(rule, kind, img, start, end, I32(8 * |file| + 32), 0, n);
    var r := FilterFirst.Ranking(kind, img, end);
    FilterFirst.RankingFacts(kind, img, end);
    RunUsable(r, img, bpp, 0, n);
    shots := Run(r, bpp, 0, n).value;
    var bits := EncodedBits(file, 0);
    assert bits == HeaderBits(I32(|file|)) + MessageBits(file) by {
      assert MessageBits(file)[0..] == MessageBits(file);
    }
    out := WriteBits(img, shots, bits).value;
  }

  /** A fitting message without overflow leaves room for every bit decode reads, within the list's bits. */
  lemma {:induction false} RoomForMessage(img: Image, size: nat, start: int, end: int)
    requires img.Valid() && FilterFirst.ValidRange(start, end) && 8 * size + 50 < TWO_31
    requires BlindHide.Addresses(img.width, img.height, FilterFirst.BitsPerPixel(start, end)) < TWO_31
    requires WillMessageFit(size, img.width, img.height, FilterFirst.Layers(img), FilterFirst.BitsPerPixel(start, end))
    ensures 8 * size + 50 <= img.width * img.height * (FilterFirst.BitsPerPixel(start, end) * 3)
    ensures I32(8 * size + 32) == 8 * size + 32 && I32(8 * size + 50) == 8 * size + 50
  {
    var bpp := FilterFirst.BitsPerPixel(start, end);
    var layers := FilterFirst.Layers(img);
    BlindHide.SpaceBound(img.width, img.height, layers, bpp);
    WillMessageFitMeaning(size, img.width, img.height, layers, bpp);
    FilterFirst.AddressProduct(img.width, img.height, bpp);
  }

  /**
   * Decode reads back what encode wrote: the image written at the ranking's
   * first shots, whose scores are the cover's, decodes to the message.
   */
  lemma {:induction false} DecodeOfWritten(rule: Rule, kind: FilterKind, img: Image, out: Image, file: seq<Byte>,
                                           start: int, end: int, shots: seq<Shot>)
    requires img.Valid() && FilterFirst.ValidRange(start, end) && UntiedScores(rule, kind, img, end)
    requires 8 * |file| + 50 < TWO_31
    requires BlindHide.Addresses(img.width, img.height, FilterFirst.BitsPerPixel(start, end)) < TWO_31
    requires WillMessageFit(|file|, img.width, img.height, FilterFirst.Layers(img), FilterFirst.BitsPerPixel(start, end))
    requires Run(FilterFirst.Ranking(kind, img, end), FilterFirst.BitsPerPixel(start, end), 0, 32 + 8 * |file|) ==
             Success(shots)
    requires AllInBounds(img, shots) && DistinctAddresses(shots)
    requires out.Valid() && out.width == img.width && out.height == img.height && out.kind == img.kind
    requires WriteBits(img, shots, HeaderBits(I32(|file|)) + MessageBits(file)) == Success(out)
    requires FilterFirst.Scores(kind, out, FilterFirst.PickerMask(end)) == FilterFirst.Scores(kind, img, FilterFirst.PickerMask(end))
    ensures DecodeOn(rule, kind, StegoImage(out), start, end) == Success(file)
  {
    var bpp := FilterFirst.BitsPerPixel(start, end);
    var header, body := HeaderBits(I32(|file|)), MessageBits(file);
    var hs, bs := shots[..32], shots[32..];
    assert FilterFirst.Ranking(kind, out, end) == FilterFirst.Ranking(kind, img, end);
    assert UntiedScores(rule, kind, out, end);
    RoomForMessage(img, |file|, start, end);
    assert out.width * out.height == img.width * img.height;
    DecodeShots(rule, kind, out, |file|, start, end, shots);
    WrittenReads(img, out, file, shots);
    var layers := FilterFirst.Layers(img);
    assert GetLayerCount(StegoImage(out)) == layers;
    SizePlausible(img, |file|, start, end);
    PackMessage(file);
    DecodeReads(rule, kind, StegoImage(out), start, end, hs, bs, header, body);
  }

  /** The header and the message written at a run of distinct shots read back from its first 32 shots and the rest. */
  lemma {:induction false} WrittenReads(img: Image, out: Image, file: seq<Byte>, shots: seq<Shot>)
    requires img.Valid() && |shots| == 32 + 8 * |file| && AllInBounds(img, shots) && DistinctAddresses(shots)
    requires WriteBits(img, shots, HeaderBits(I32(|file|)) + MessageBits(file)) == Success(out)
    ensures ReadBits(out, shots[..32]) == Success(HeaderBits(I32(|file|)))
    ensures ReadBits(out, shots[32..]) == Success(MessageBits(file))
  {
    var hs, bs := shots[..32], shots[32..];
    assert shots == hs + bs;
    WriteThenReadParts(img, hs, bs, HeaderBits(I32(|file|)), MessageBits(file));
  }

  /** The header of a fitting message, read back, gives its exact bit count, which decode finds plausible. */
  lemma {:induction false} SizePlausible(img: Image, size: nat, start: int, end: int)
    requires img.Valid() && FilterFirst.ValidRange(start, end) && 8 * size + 50 < TWO_31
    requires BlindHide.Addresses(img.width, img.height, FilterFirst.BitsPerPixel(start, end)) < TWO_31
    requires WillMessageFit(size, img.width, img.height, FilterFirst.Layers(img), FilterFirst.BitsPerPixel(start, end))
    ensures BodyLength(HeaderValue(HeaderBits(I32(size)))) == 8 * size
    ensures !Implausible(8 * size, ImageSpace(img.width, img.height, FilterFirst.Layers(img), FilterFirst.BitsPerPixel(start, end)))
  {
    var bpp := FilterFirst.BitsPerPixel(start, end);
    var layers := FilterFirst.Layers(img);
    HeaderRoundTrip(I32(size));
    BlindHide.SpaceBound(img.width, img.height, layers, bpp);
    FittingLengthIsPlausible(size, img.width, img.height, layers, bpp);
  }

  /** On an image, decode's two pickers make the first 32 and the next `8 * size` shots of the image's ranking. */
  lemma {:induction false} DecodeShots(rule: Rule, kind: FilterKind, out: Image, size: nat,
                                       start: int, end: int, shots: seq<Shot>)
    requires out.Valid() && FilterFirst.ValidRange(start, end) && UntiedScores(rule, kind, out, end)
    requires 8 * size + 50 < TWO_31
    requires 8 * size + 50 <= out.width * out.height * (FilterFirst.BitsPerPixel(start, end) * 3)
    requires Run(FilterFirst.Ranking(kind, out, end), FilterFirst.BitsPerPixel(start, end), 0, 32 + 8 * size) ==
             Success(shots)
    ensures |shots| == 32 + 8 * size
    ensures HeaderShots(rule, kind, out, start, end) == Success(shots[..32])
    ensures BodyShots(rule, kind, out, start, end, 8 * size) == Success(shots[32..])
  {
    RunParts(FilterFirst.Ranking(kind, out, end), FilterFirst.BitsPerPixel(start, end), 32, 8 * size, shots);
    HeaderPicker(rule, kind, out, start, end);
    BodyPicker(rule, kind, out, start, end, 8 * size);
  }

  /** decode's header picker makes the ranking's first 32 shots. */
  lemma {:induction false} HeaderPicker(rule: Rule, kind: FilterKind, img: Image, start: int, end: int)
    requires img.Valid() && FilterFirst.ValidRange(start, end) && UntiedScores(rule, kind, img, end)
    requires 50 <= img.width * img.height * (FilterFirst.BitsPerPixel(start, end) * 3)
    ensures HeaderShots(rule, kind, img, start, end) ==
            Run(FilterFirst.Ranking(kind, img, end), FilterFirst.BitsPerPixel(start, end), 0, 32)
  {
    PickerWalksRanking(rule, kind, img, start, end, 50, 0, 32);
  }

  /** decode's body picker for `length` bits makes the ranking's shots 32 to `32 + length`. */
  lemma {:induction false} BodyPicker(rule: Rule, kind: FilterKind, img: Image, start: int, end: int, length: nat)
    requires img.Valid() && FilterFirst.ValidRange(start, end) && UntiedScores(rule, kind, img, end)
    requires length + 50 < TWO_31 && length + 50 <= img.width * img.height * (FilterFirst.BitsPerPixel(start, end) * 3)
    ensures BodyShots(rule, kind, img, start, end, length) ==
            Run(FilterFirst.Ranking(kind, img, end), FilterFirst.BitsPerPixel(start, end), 32, length)
  {
    assert I32(length + 50) == length + 50;
    PickerWalksRanking(rule, kind, img, start, end, length + 50, 32, length);
  }

  /** decode on an image whose header shots read a plausible size and whose body shots then read `body`. */
  lemma {:induction false} DecodeReads(rule: Rule, kind: FilterKind, s: StegoImage, start: int, end: int,
                                       hs: seq<Shot>, bs: seq<Shot>, header: seq<bool>, body: seq<bool>)
    requires s.Valid() && FilterFirst.ValidRange(start, end)
    requires HeaderShots(rule, kind, s.image, start, end) == Success(hs)
    requires ReadBits(s.image, hs) == Success(header)
    requires !Implausible(BodyLength(HeaderValue(header)),
                          ImageSpace(s.image.width, s.image.height, GetLayerCount(s), FilterFirst.BitsPerPixel(start, end)))
    requires BodyShots(rule, kind, s.image, start, end, BodyLength(HeaderValue(header))) == Success(bs)
    requires ReadBits(s.image, bs) == Success(body)
    ensures DecodeOn(rule, kind, s, start, end) == Success(Pack(body))
  {
  }

  /**
   * The round trip: with the comparator's test, or with the code's test on
   * scores that never tie, decoding the encoded image gives back the message
   * whenever it fits and the image's bit count does not overflow an int.
   */
  lemma {:induction false} EncodeDecode(rule: Rule, kind: FilterKind, img: Image, file: seq<Byte>, start: int, end: int)
    requires img.Valid() && FilterFirst.ValidRange(start, end) && UntiedScores(rule, kind, img, end)
    requires 8 * |file| + 50 < TWO_31
    requires BlindHide.Addresses(img.width, img.height, FilterFirst.BitsPerPixel(start, end)) < TWO_31
    requires WillMessageFit(|file|, img.width, img.height, FilterFirst.Layers(img), FilterFirst.BitsPerPixel(start, end))
    ensures EncodeOn(rule, kind, img, file, 0, start, end).Success?
    ensures DecodeOn(rule, kind, EncodeOn(rule, kind, img, file, 0, start, end).value, start, end) == Success(file)
  {
    var shots, out := EncodeWrites(rule, kind, img, file, start, end);
    FilterFirst.ScoresSurviveWrites(kind, img, shots, HeaderBits(I32(|file|)) + MessageBits(file), end);
    DecodeOfWritten(rule, kind, img, out, file, start, end, shots);
  }

  /** encode fails with IllegalArgument exactly when the message does not fit; every other failure is a crash. */
  lemma {:induction false} EncodeErrors(rule: Rule, kind: FilterKind, img: Image, file: seq<Byte>, delivered: nat,
                                        start: int, end: int)
    requires img.Valid() && FilterFirst.ValidRange(start, end) && delivered <= 8 * |file|
    ensures EncodeOn(rule, kind, img, file, delivered, start, end) == Failure(IllegalArgument) <==>
            !WillMessageFit(|file|, img.width, img.height, FilterFirst.Layers(img), FilterFirst.BitsPerPixel(start, end))
    ensures EncodeOn(rule, kind, img, file, delivered, start, end).Failure? ==>
            EncodeOn(rule, kind, img, file, delivered, start, end).error in {IllegalArgument, Crash}
  {
    var bpp := FilterFirst.BitsPerPixel(start, end);
    KeptSucceeds(rule, kind, img, end, KeepCount(I32(8 * |file| + 32), bpp));
  }

  /** What the simulation shows: a pixel is lit exactly when one of its shots lands on it. */
  lemma {:induction false} SimulationShowsShots(rule: Rule, kind: FilterKind, img: Image, size: nat, delivered: nat,
                                                start: int, end: int, x: int, y: int)
    requires img.Valid() && FilterFirst.ValidRange(start, end) && delivered <= 8 * size && img.InBounds(x, y)
    requires SimulationOn(rule, kind, img, size, delivered, start, end).Success?
    ensures SimulationShots(rule, kind, img, size, delivered, start, end).Success?
    ensures SimulationOn(rule, kind, img, size, delivered, start, end).value.RGB(x, y) != 0 <==>
            Hits(SimulationShots(rule, kind, img, size, delivered, start, end).value, x, y)
  {
    var shots := SimulationShots(rule, kind, img, size, delivered, start, end).value;
    MarkHits(Blacken(img), shots, x, y);
  }

  /**
   * Without ties under the rule and without overflow, the simulation shows
   * encode's shots: its picker, kept for 18 more bits, makes the same calls.
   */
  lemma {:induction false} SimulationMatchesEncode(rule: Rule, kind: FilterKind, img: Image, file: seq<Byte>,
                                                   delivered: nat, start: int, end: int)
    requires img.Valid() && FilterFirst.ValidRange(start, end) && UntiedScores(rule, kind, img, end)
    requires delivered <= 8 * |file| && 8 * |file| + 50 < TWO_31
    requires BlindHide.Addresses(img.width, img.height, FilterFirst.BitsPerPixel(start, end)) < TWO_31
    requires WillMessageFit(|file|, img.width, img.height, FilterFirst.Layers(img), FilterFirst.BitsPerPixel(start, end))
    ensures SimulationShots(rule, kind, img, |file|, delivered, start, end) == EncodeShots(rule, kind, img, file, delivered, start, end)
    ensures EncodeShots(rule, kind, img, file, delivered, start, end).Success?
  {
    var n := 32 + (8 * |file| - delivered);
    RoomForMessage(img, |file|, start, end);
    EncodePicker(rule, kind, img, file, delivered, start, end);
    SimulationPicker(rule, kind, img, |file|, delivered, start, end);
    FilterFirst.RankingFacts(kind, img, end);
    RunUsable(FilterFirst.Ranking(kind, img, end), img, FilterFirst.BitsPerPixel(start, end), 0, n);
  }

  /** Without ties, encode's picker makes the ranking's first shots. */
  lemma {:induction false} EncodePicker(rule: Rule, kind: FilterKind, img: Image, file: seq<Byte>,
                                        delivered: nat, start: int, end: int)
    requires img.Valid() && FilterFirst.ValidRange(start, end) && UntiedScores(rule, kind, img, end)
    requires delivered <= 8 * |file| && 8 * |file| + 32 < TWO_31
    requires 8 * |file| + 32 <= img.width * img.height * (FilterFirst.BitsPerPixel(start, end) * 3)
    ensures EncodeShots(rule, kind, img, file, delivered, start, end) ==
            Run(FilterFirst.Ranking(kind, img, end), FilterFirst.BitsPerPixel(start, end), 0, 32 + (8 * |file| - delivered))
  {
    assert I32(8 * |file| + 32) == 8 * |file| + 32;
    PickerWalksRanking(rule, kind, img, start, end, 8 * |file| + 32, 0, 32 + (8 * |file| - delivered));
  }

  /** Without ties, the simulation's picker makes the ranking's first shots. */
  lemma {:induction false} SimulationPicker(rule: Rule, kind: FilterKind, img: Image, size: nat,
                                            delivered: nat, start: int, end: int)
    requires img.Valid() && FilterFirst.ValidRange(start, end) && UntiedScores(rule, kind, img, end)
    requires delivered <= 8 * size && 8 * size + 50 < TWO_31
    requires 8 * size + 50 <= img.width * img.height * (FilterFirst.BitsPerPixel(start, end) * 3)
    ensures SimulationShots(rule, kind, img, size, delivered, start, end) ==
            Run(FilterFirst.Ranking(kind, img, end), FilterFirst.BitsPerPixel(start, end), 0, 32 + (8 * size - delivered))
  {
    assert I32(8 * size + 50) == 8 * size + 50;
    PickerWalksRanking(rule, kind, img, start, end, 8 * size + 50, 0, 32 + (8 * size - delivered));
  }

  // ----- the code's test on a cover of one colour -----

  /** The first k entries of a list of distinct pixels of the image are distinct pixels of the image. */
  lemma {:induction false} PrefixPositions(s: seq<FilteredPixel>, img: Image, k: nat)
    requires FilterFirst.PositionsIn(s, img) && FilterFirst.DistinctPositions(s) && k <= |s|
    ensures FilterFirst.PositionsIn(s[..k], img) && FilterFirst.DistinctPositions(s[..k])
  {
    forall i, j | 0 <= i < k && 0 <= j < k && i != j
      ensures FilterFirst.Apart(s[..k][i], s[..k][j])
    {
      assert FilterFirst.Apart(s[i], s[j]);
    }
  }

  /** A run over the first k pixels of a list of distinct pixels never lands on a later pixel of the list. */
  lemma {:induction false} RunMisses(s: seq<FilteredPixel>, k: nat, bpp: int, lo: nat, n: nat, j: nat)
    requires FilterFirst.DistinctPositions(s) && k <= j < |s| && Run(s[..k], bpp, lo, n).Success?
    ensures !Hits(Run(s[..k], bpp, lo, n).value, s[j].x, s[j].y)
  {
    var shots := Run(s[..k], bpp, lo, n).value;
    RunWithin(s[..k], bpp, lo, n);
    forall i | 0 <= i < |shots|
      ensures shots[i].x != s[j].x || shots[i].y != s[j].y
    {
      var m :| 0 <= m < k && shots[i].x == s[..k][m].x && shots[i].y == s[..k][m].y;
      assert FilterFirst.Apart(s[m], s[j]);
    }
  }

  /** On a cover of one colour with one bit per colour, encode writes a one-byte message at the first 14 pixels of the scan. */
  lemma {:induction false} FlatEncode(kind: FilterKind, img: Image, p: bv32, file: seq<Byte>, end: int)
    returns (shots: seq<Shot>, out: Image)
    requires Flat(img, p) && 0 <= end <= 6 && |file| == 1 && img.width * img.height >= 17
    requires WillMessageFit(1, img.width, img.height, FilterFirst.Layers(img), 1)
    ensures Run(FilterFirst.Scores(kind, img, FilterFirst.PickerMask(end))[..14], 1, 0, 40) == Success(shots)
    ensures EncodeShots(ByScore, kind, img, file, 0, end, end) == Success(shots)
    ensures EncodeOn(ByScore, kind, img, file, 0, end, end) == Success(StegoImage(out))
    ensures out.Valid() && out.width == img.width && out.height == img.height
    ensures FilterFirst.Scores(kind, out, FilterFirst.PickerMask(end)) == FilterFirst.Scores(kind, img, FilterFirst.PickerMask(end))
  {
    var mask := FilterFirst.PickerMask(end);
    var sc := FilterFirst.Scores(kind, img, mask);
    assert KeepCount(I32(8 * |file| + 32), 1) == 14;
    FlatKeepsFirst(kind, img, p, end, 14);
    FilterFirst.ScoresOrder(kind, img, mask);
    FilterFirst.ColumnMajorDistinct(sc, img);
    PrefixPositions(sc, img, 14);
    RunUsable(sc[..14], img, 1, 0, 40);
    shots := Run(sc[..14], 1, 0, 40).value;
    var bits := EncodedBits(file, 0);
    FilterFirst.ScoresSurviveWrites(kind, img, shots, bits, end);
    out := WriteBits(img, shots, bits).value;
  }

  /** decode's header picker, on an image whose scores are those of a flat cover, starts at the 17th pixel of the scan. */
  lemma {:induction false} FlatHeader(kind: FilterKind, out: Image, sc: seq<FilteredPixel>, end: int)
    requires out.Valid() && 0 <= end <= 6 && |sc| >= 17
    requires Kept(ByScore, kind, out, end, 17) == Success(sc[..17])
    requires FilterFirst.PositionsIn(sc, out) && FilterFirst.DistinctPositions(sc)
    ensures HeaderShots(ByScore, kind, out, end, end).Success?
    ensures HeaderShots(ByScore, kind, out, end, end).value[0].x == sc[16].x
    ensures HeaderShots(ByScore, kind, out, end, end).value[0].y == sc[16].y
  {
    assert KeepCount(50, 1) == 17;
    PrefixPositions(sc, out, 17);
    RunUsable(sc[..17], out, 1, 0, 32);
    RunCalls(sc[..17], 1, 0, 32);
    var h := Run(sc[..17], 1, 0, 32).value[0];
    assert Success(h) == Call(sc[..17], 1, 0);
  }

  /**
   * The code as written, on a cover of one colour, with one bit per colour
   * and a one-byte message: every pixel scores 0, so the strict test keeps
   * the first pixels of the scan. Encode keeps 14 of them and writes all 40
   * bits there, while decode's header picker keeps 17 and takes its first
   * header bit from the 17th pixel of the scan, which none of encode's shots
   * touched.
   */
  lemma {:induction false} HeaderMissedOnFlatImage(kind: FilterKind, img: Image, p: bv32, file: seq<Byte>, end: int)
    requires Flat(img, p) && 0 <= end <= 6 && |file| == 1 && img.width * img.height >= 17
    requires WillMessageFit(1, img.width, img.height, FilterFirst.Layers(img), 1)
    ensures EncodeShots(ByScore, kind, img, file, 0, end, end).Success?
    ensures EncodeOn(ByScore, kind, img, file, 0, end, end).Success?
    ensures var out := EncodeOn(ByScore, kind, img, file, 0, end, end).value.image;
            HeaderShots(ByScore, kind, out, end, end).Success? &&
            (var h := HeaderShots(ByScore, kind, out, end, end).value[0];
             !Hits(EncodeShots(ByScore, kind, img, file, 0, end, end).value, h.x, h.y))
  {
    var mask := FilterFirst.PickerMask(end);
    var sc := FilterFirst.Scores(kind, img, mask);
    var shots, out := FlatEncode(kind, img, p, file, end);
    FlatKeepsFirst(kind, img, p, end, 17);
    assert Kept(ByScore, kind, out, end, 17) == Success(sc[..17]);
    FilterFirst.ScoresOrder(kind, img, mask);
    FilterFirst.ColumnMajorDistinct(sc, img);
    assert FilterFirst.PositionsIn(sc, out);
    FlatHeader(kind, out, sc, end);
    RunMisses(sc, 14, 1, 0, 40, 16);
  }

  // ----- generateList, pixel by pixel -----

  /** A set still empty when the scan reaches the size means the size left no room. */
  lemma {:induction false} EmptyMeansNoRoom(rule: Rule, entries: seq<FilteredPixel>, size: int)
    requires |entries| >= size && Scan(rule, entries, size) == Success([])
    ensures size <= 0
  {
    if size >= 1 {
      ScanShape(rule, entries, size);
      assert false;
    }
  }

  /** The set after the first n entries of the column-major list were scanned. */
  ghost function ScannedUpTo(rule: Rule, kind: FilterKind, img: Image, mask: bv32, n: nat, size: int)
    : Result<seq<FilteredPixel>>
    requires img.Valid() && n <= img.width * img.height
  {
    if n == 0 then Success([])
    else
      match ScannedUpTo(rule, kind, img, mask, n - 1, size)
      case Failure(e) => Failure(e)
      case Success(kept) => Step(rule, kept, FilterFirst.Entry(kind, img, mask, n - 1), n - 1, size)
  }

  /** Counting the entries off one at a time is scanning the list of the first n. */
  lemma {:induction false} ScannedIsScan(rule: Rule, kind: FilterKind, img: Image, mask: bv32, n: nat, size: int)
    requires img.Valid() && n <= img.width * img.height
    ensures ScannedUpTo(rule, kind, img, mask, n, size) == Scan(rule, FilterFirst.ScoresUpTo(kind, img, mask, n), size)
  {
    if n > 0 {
      ScannedIsScan(rule, kind, img, mask, n - 1, size);
      var entries := FilterFirst.ScoresUpTo(kind, img, mask, n);
      assert entries[..n - 1] == FilterFirst.ScoresUpTo(kind, img, mask, n - 1);
      assert entries[n - 1] == FilterFirst.Entry(kind, img, mask, n - 1);
    }
  }

  /**
   * generateList: set the filter's image, stream every pixel (i, j) with
   * the absolute value of its score through the sorted set, then copy the
   * set, ascending, into the array. `first()` on an empty set throws, and
   * the picker's constructor turns that into a crash.
   */
  method GenerateList(image: Image, filter: Filter, size: int, rule: Rule) returns (r: Result<array<FilteredPixel>>)
    requires image.Valid()
    modifies filter
    ensures filter.Valid() && filter.image == Some(image)
    ensures filter.startRange == old(filter.startRange) && filter.endRange == old(filter.endRange)
    ensures r.Success? ==>
              fresh(r.value) &&
              Scan(rule, FilterFirst.Scores(filter.kind, image, ByteMask(filter.startRange, filter.endRange)), size) ==
              Success(r.value[..])
    ensures r.Failure? ==>
              r.error == Crash &&
              Scan(rule, FilterFirst.Scores(filter.kind, image, ByteMask(filter.startRange, filter.endRange)), size).Failure?
  {
    filter.SetImage(Some(image));
    ghost var mask := ByteMask(filter.startRange, filter.endRange);
    var sortedList := ScanColumns(filter, image, mask, size, rule);
    if sortedList.Failure? {
      return Failure(Crash);
    }
    ScannedIsScan(rule, filter.kind, image, mask, image.width * image.height, size);
    var fparray := ToArray(sortedList.value);
    return Success(fparray);
  }

  /** The two loops of generateList: every column, left to right, into an empty set. */
  method ScanColumns(filter: Filter, image: Image, ghost mask: bv32, size: int, rule: Rule)
    returns (r: Result<seq<FilteredPixel>>)
    requires filter.Valid() && filter.image == Some(image) && mask == ByteMask(filter.startRange, filter.endRange)
    ensures r.Success? ==> ScannedUpTo(rule, filter.kind, image, mask, image.width * image.height, size) == r
    ensures r.Failure? ==> r.error == Crash && Scan(rule, FilterFirst.Scores(filter.kind, image, mask), size).Failure?
  {
    var sortedList: seq<FilteredPixel> := [];
    for i := 0 to image.width
      invariant 0 <= FilterFirst.ColumnOffset(i, image.height) <= image.width * image.height
      invariant ScannedUpTo(rule, filter.kind, image, mask, FilterFirst.ColumnOffset(i, image.height), size) == Success(sortedList)
    {
      var column := ScanNextColumn(filter, image, mask, i, size, rule, sortedList);
      if column.Failure? {
        return Failure(Crash);
      }
      sortedList := column.value;
    }
    FilterFirst.ColumnOffsetIs(image.width, image.height);
    return Success(sortedList);
  }

  /** One pass of the outer loop of generateList: column i, after the i * H pixels before it. */
  method ScanNextColumn(filter: Filter, image: Image, ghost mask: bv32, i: int, size: int, rule: Rule,
                        list0: seq<FilteredPixel>) returns (r: Result<seq<FilteredPixel>>)
    requires filter.Valid() && filter.image == Some(image) && 0 <= i < image.width
    requires mask == ByteMask(filter.startRange, filter.endRange)
    requires 0 <= FilterFirst.ColumnOffset(i, image.height) <= image.width * image.height
    requires ScannedUpTo(rule, filter.kind, image, mask, FilterFirst.ColumnOffset(i, image.height), size) == Success(list0)
    ensures 0 <= FilterFirst.ColumnOffset(i + 1, image.height) <= image.width * image.height
    ensures r.Success? ==> ScannedUpTo(rule, filter.kind, image, mask, FilterFirst.ColumnOffset(i + 1, image.height), size) == r
    ensures r.Failure? ==> r.error == Crash && Scan(rule, FilterFirst.Scores(filter.kind, image, mask), size).Failure?
  {
    FilterFirst.NextColumn(i, image.width, image.height);
    r := ScanColumn(filter, image, mask, i, FilterFirst.ColumnOffset(i, image.height),
                    FilterFirst.ColumnOffset(i + 1, image.height), size, rule, list0);
  }

  /** `sortedList.toArray(...)`: a new array holding the set's pixels, ascending. */
  method ToArray(list: seq<FilteredPixel>) returns (a: array<FilteredPixel>)
    ensures fresh(a) && a[..] == list
  {
    a := new FilteredPixel[|list|](k requires 0 <= k < |list| => list[k]);
  }

  /**
   * The inner loop of generateList: column i, pixels (i, 0) .. (i, H - 1),
   * into the set `list0`; `base` is i * H, the pixels before the column.
   */
  method ScanColumn(filter: Filter, image: Image, ghost mask: bv32, i: int, ghost base: int, ghost next: int, size: int,
                    rule: Rule, list0: seq<FilteredPixel>) returns (r: Result<seq<FilteredPixel>>)
    requires filter.Valid() && filter.image == Some(image) && 0 <= i < image.width
    requires mask == ByteMask(filter.startRange, filter.endRange)
    requires base == FilterFirst.ColumnOffset(i, image.height) && 0 <= base && next == base + image.height
    requires next <= image.width * image.height
    requires ScannedUpTo(rule, filter.kind, image, mask, base, size) == Success(list0)
    ensures r.Success? ==> ScannedUpTo(rule, filter.kind, image, mask, next, size) == r
    ensures r.Failure? ==> r.error == Crash && Scan(rule, FilterFirst.Scores(filter.kind, image, mask), size).Failure?
  {
    var height := image.height;
    var list := list0;
    ghost var k := base;
    for j := 0 to height
      invariant k == base + j
      invariant ScannedUpTo(rule, filter.kind, image, mask, k, size) == Success(list)
    {
      var next := ScanPixel(filter, image, i, j, k, size, rule, list);
      if next.Failure? {
        return Failure(Crash);
      }
      list := next.value;
      k := k + 1;
    }
    assert k == next;
    return Success(list);
  }

  /** One pass of the inner loop of generateList: pixel (i, j) offered to the set `list`. */
  method ScanPixel(filter: Filter, image: Image, i: int, j: int, ghost k: int, size: int, rule: Rule,
                   list: seq<FilteredPixel>) returns (r: Result<seq<FilteredPixel>>)
    requires filter.Valid() && filter.image == Some(image) && 0 <= i < image.width && 0 <= j < image.height
    requires k == FilterFirst.ColumnOffset(i, image.height) + j && 0 <= k < image.width * image.height
    requires ScannedUpTo(rule, filter.kind, image, ByteMask(filter.startRange, filter.endRange), k, size) == Success(list)
    ensures r.Success? ==>
              ScannedUpTo(rule, filter.kind, image, ByteMask(filter.startRange, filter.endRange), k + 1, size) == r
    ensures r.Failure? ==>
              r.error == Crash &&
              Scan(rule, FilterFirst.Scores(filter.kind, image, ByteMask(filter.startRange, filter.endRange)), size).Failure?
  {
    var index := i * image.height + j;
    PixelStep(rule, filter.kind, image, ByteMask(filter.startRange, filter.endRange), i, j, k, size, list);
    if index < size {
      var v := filter.GetValue(i, j);
      return Success(Insert(FilteredPixel(i, j, Abs(v.value)), list));
    } else if list == [] {
      return Failure(Crash);
    }
    var v := filter.GetValue(i, j);
    var fp := FilteredPixel(i, j, Abs(v.value));
    if Displaces(rule, fp, list[0]) {
      return Success(Insert(fp, list[1..]));
    }
    return Success(list);
  }

  /**
   * Pixel (i, j) is entry k = i * H + j of the scan: offering it to the set
   * is one step of the scan, and a set left empty once the first `size`
   * entries are in means the whole scan fails.
   */
  lemma {:induction false} PixelStep(rule: Rule, kind: FilterKind, image: Image, mask: bv32, i: int, j: int, k: int,
                                     size: int, list: seq<FilteredPixel>)
    requires image.Valid() && 0 <= i < image.width && 0 <= j < image.height
    requires k == FilterFirst.ColumnOffset(i, image.height) + j && 0 <= k < image.width * image.height
    requires ScannedUpTo(rule, kind, image, mask, k, size) == Success(list)
    ensures k == i * image.height + j
    ensures ScannedUpTo(rule, kind, image, mask, k + 1, size)
            == Step(rule, list, FilteredPixel(i, j, FilterFirst.Score(kind, image, mask, i, j)), k, size)
    ensures k >= size && list == [] ==> Scan(rule, FilterFirst.Scores(kind, image, mask), size) == Failure(Crash)
  {
    FilterFirst.ColumnOffsetIs(i, image.height);
    FilterFirst.EntryAt(kind, image, mask, i, j);
    var e := FilterFirst.Entry(kind, image, mask, k);
    assert e == FilteredPixel(i, j, FilterFirst.Score(kind, image, mask, i, j));
    assert ScannedUpTo(rule, kind, image, mask, k + 1, size) == Step(rule, list, e, k, size);
    if k >= size && list == [] {
      ScannedIsScan(rule, kind, image, mask, k, size);
      EmptyMeansNoRoom(rule, FilterFirst.ScoresUpTo(kind, image, mask, k), size);
      FilterFirst.AreaPositive(image);
      ScanNeedsRoom(rule, FilterFirst.Scores(kind, image, mask), size);
    }
  }

  // ----- the picker object -----

  class ShotPicker {
    /** mStartRange, mEndRange: the algorithm's bit range. */
    const startRange: int
    const endRange: int
    /** fparray: the kept pixels, ascending. */
    var fparray: array<FilteredPixel>
    /** mBitCount, mColour, mArrayPos: the odometer. */
    var bitCount: int
    var colour: int
    var arrayPos: int

    function Counters(): Odometer
      reads this
    {
      Odometer(bitCount, colour, arrayPos)
    }

    constructor Init(startrange: int, endrange: int, list: array<FilteredPixel>, o: Odometer)
      ensures startRange == startrange && endRange == endrange && fparray == list && Counters() == o
    {
      startRange := startrange;
      endRange := endrange;
      fparray := list;
      bitCount, colour, arrayPos := o.bitCount, o.colour, o.arrayPos;
    }

    /**
     * The picker's constructor: the filter's range becomes end+1 .. 8, the
     * odometer skips `ignore` calls and generateList keeps `numpix + 1`
     * pixels, `numpix` being the message size over the bits per pixel. A
     * failing generateList ends the program; here that is a crash.
     */
    static method New(startrange: int, endrange: int, image: Image, filter: Filter, messagesize: int, ignore: nat,
                      rule: Rule) returns (r: Result<ShotPicker>)
      requires FilterFirst.ValidRange(startrange, endrange) && image.Valid()
      modifies filter
      ensures filter.Valid() && filter.image == Some(image) && filter.startRange == endrange + 1 && filter.endRange == 8
      ensures r.Failure? <==>
                Kept(rule, filter.kind, image, endrange,
                     KeepCount(messagesize, FilterFirst.BitsPerPixel(startrange, endrange))).Failure?
      ensures r.Failure? ==> r.error == Crash
      ensures r.Success? ==>
                fresh(r.value) && fresh(r.value.fparray) &&
                r.value.startRange == startrange && r.value.endRange == endrange &&
                Kept(rule, filter.kind, image, endrange, KeepCount(messagesize, FilterFirst.BitsPerPixel(startrange, endrange))) ==
                Success(r.value.fparray[..]) &&
                r.value.Counters() == AdvanceBy(FilterFirst.BitsPerPixel(startrange, endrange), ignore)
    {
      filter.SetStartRange(endrange + 1);
      filter.SetEndRange(8);
      var bpp := (endrange + 1) - startrange;
      var numpix := JavaQuot(messagesize, bpp * 3);
      var skipped := Skip(bpp, ignore);
      var list := KeptList(image, filter, endrange, numpix + 1, rule);
      if list.Failure? {
        return Failure(Crash);
      }
      var picker := new ShotPicker.Init(startrange, endrange, list.value, skipped);
      return Success(picker);
    }

    /** generateList with the filter's range already moved above the picker's bits: the kept pixels. */
    static method KeptList(image: Image, filter: Filter, endrange: int, size: int, rule: Rule)
      returns (r: Result<array<FilteredPixel>>)
      requires image.Valid() && filter.startRange == endrange + 1 && filter.endRange == 8
      modifies filter
      ensures filter.Valid() && filter.image == Some(image) && filter.startRange == endrange + 1 && filter.endRange == 8
      ensures r.Success? ==> fresh(r.value) && Kept(rule, filter.kind, image, endrange, size) == Success(r.value[..])
      ensures r.Failure? ==> r.error == Crash && Kept(rule, filter.kind, image, endrange, size).Failure?
    {
      r := GenerateList(image, filter, size, rule);
    }

    /** The constructor's loop over the ignored calls: the odometer stepped `ignore` times from zero. */
    static method Skip(bpp: int, ignore: nat) returns (o: Odometer)
      ensures o == AdvanceBy(bpp, ignore)
    {
      var bitCount, colour, arrayPos := 0, 0, 0;
      for i := 0 to ignore
        invariant Odometer(bitCount, colour, arrayPos) == AdvanceBy(bpp, i)
      {
        bitCount := bitCount + 1;
        if bitCount >= bpp {
          bitCount := 0;
          colour := colour + 1;
          if colour >= 3 {
            colour := 0;
            arrayPos := arrayPos + 1;
          }
        }
      }
      o := Odometer(bitCount, colour, arrayPos);
    }

    /** getShot: the pixel arrayPos places below the top, with the counters' bit and colour; then the odometer steps. */
    method GetShot() returns (r: Result<Shot>)
      modifies this
      ensures fparray == old(fparray)
      ensures r == ShotOf(fparray[..], old(Counters()))
      ensures r.Success? ==> Counters() == Advance(old(Counters()), FilterFirst.BitsPerPixel(startRange, endRange))
    {
      var index := (fparray.Length - arrayPos) - 1;
      if index < 0 || index >= fparray.Length {
        return Failure(Crash);
      }
      var fp := fparray[index];
      r := Success(Shot(fp.x, fp.y, bitCount, colour));
      bitCount := bitCount + 1;
      if bitCount >= (endRange - startRange) + 1 {
        bitCount := 0;
        colour := colour + 1;
        if colour >= 3 {
          colour := 0;
          arrayPos := arrayPos + 1;
        }
      }
    }
  }

  /** A picker over `kept` that has answered `calls` calls, counting the ignored ones. */
  ghost predicate Picking(rgen: ShotPicker, kept: seq<FilteredPixel>, bpp: int, calls: nat)
    reads rgen, rgen.fparray
  {
    rgen.fparray[..] == kept && bpp == FilterFirst.BitsPerPixel(rgen.startRange, rgen.endRange) &&
    rgen.Counters() == AdvanceBy(bpp, calls)
  }

  /** The picker after one more call, counted by the run that call extends. */
  lemma {:induction false} PickingNext(rgen: ShotPicker, kept: seq<FilteredPixel>, bpp: int, shots: seq<Shot>, s: Shot)
    requires Picking(rgen, kept, bpp, |shots| + 1)
    ensures Picking(rgen, kept, bpp, |shots + [s]|)
  {
  }

  /** The next call of getShot, continuing a run of `shots` that began at call lo. */
  method NextShot(rgen: ShotPicker, ghost kept: seq<FilteredPixel>, ghost bpp: int, ghost lo: nat, ghost shots: seq<Shot>)
    returns (r: Result<Shot>)
    requires Picking(rgen, kept, bpp, lo + |shots|) && Run(kept, bpp, lo, |shots|) == Success(shots)
    modifies rgen
    ensures r.Failure? ==> r == Failure(Crash) && Call(kept, bpp, lo + |shots|).Failure? &&
                           Run(kept, bpp, lo, |shots| + 1).Failure?
    ensures r.Success? ==> Picking(rgen, kept, bpp, lo + |shots| + 1) &&
                           Run(kept, bpp, lo, |shots| + 1) == Success(shots + [r.value])
  {
    r := rgen.GetShot();
    assert r == Call(kept, bpp, lo + |shots|);
  }

  /** A run whose next call throws fails one call later. */
  lemma {:induction false} RunStopsAt(kept: seq<FilteredPixel>, bpp: int, lo: nat, shots: seq<Shot>)
    requires Run(kept, bpp, lo, |shots|) == Success(shots) && Call(kept, bpp, lo + |shots|).Failure?
    ensures Run(kept, bpp, lo, |shots| + 1).Failure?
  {
  }

  /** A run that fails fails at every greater length. */
  lemma {:induction false} RunFailsLonger(kept: seq<FilteredPixel>, bpp: int, lo: nat, m: nat, n: nat)
    requires Run(kept, bpp, lo, m).Failure? && m <= n
    ensures Run(kept, bpp, lo, n) == Failure(Crash)
  {
    RunSplit(kept, bpp, lo, m, n - m);
  }

  /** Every pixel the picker keeps is a pixel of the image. */
  lemma {:induction false} KeptPositions(rule: Rule, kind: FilterKind, img: Image, end: int, size: int)
    requires img.Valid() && Kept(rule, kind, img, end, size).Success?
    ensures FilterFirst.PositionsIn(Kept(rule, kind, img, end, size).value, img)
  {
    var entries := FilterFirst.Scores(kind, img, FilterFirst.PickerMask(end));
    var kept := Kept(rule, kind, img, end, size).value;
    KeptSucceeds(rule, kind, img, end, size);
    ScanShape(rule, entries, size);
    FilterFirst.ScoresOrder(kind, img, FilterFirst.PickerMask(end));
    FilterFirst.ColumnMajorDistinct(entries, img);
    forall i | 0 <= i < |kept|
      ensures img.InBounds(kept[i].x, kept[i].y)
    {
      assert kept[i] in multiset(entries);
      var j :| 0 <= j < |entries| && entries[j] == kept[i];
    }
  }

  /** The last shot of a run is what its last call returned. */
  lemma {:induction false} RunLast(kept: seq<FilteredPixel>, bpp: int, lo: nat, shots: seq<Shot>, s: Shot)
    requires Run(kept, bpp, lo, |shots| + 1) == Success(shots + [s])
    ensures Call(kept, bpp, lo + |shots|) == Success(s)
  {
    assert (shots + [s])[|shots|] == s;
  }

  /** A successful call of a picker over the image's pixels lands in the image. */
  lemma {:induction false} CallInImage(kept: seq<FilteredPixel>, bpp: int, i: nat, img: Image)
    requires FilterFirst.PositionsIn(kept, img) && Call(kept, bpp, i).Success?
    ensures img.InBounds(Call(kept, bpp, i).value.x, Call(kept, bpp, i).value.y)
  {
  }

  // ----- the outcomes of the spec functions, one lemma per exit of the Java code -----

  /** encode's shots are the first calls of its picker. */
  lemma {:induction false} EncodeShotsAre(rule: Rule, kind: FilterKind, img: Image, file: seq<Byte>, delivered: nat,
                                          start: int, end: int, kept: seq<FilteredPixel>)
    requires img.Valid() && FilterFirst.ValidRange(start, end) && delivered <= 8 * |file|
    requires Kept(rule, kind, img, end, KeepCount(I32(8 * |file| + 32), FilterFirst.BitsPerPixel(start, end))) == Success(kept)
    ensures EncodeShots(rule, kind, img, file, delivered, start, end) ==
            Run(kept, FilterFirst.BitsPerPixel(start, end), 0, |EncodedBits(file, delivered)|)
  {
  }

  /** A call of getShot throws while encode writes: encode crashes. */
  lemma {:induction false} EncodeCrash(rule: Rule, kind: FilterKind, img: Image, file: seq<Byte>, delivered: nat,
                                       start: int, end: int, kept: seq<FilteredPixel>, m: nat)
    requires img.Valid() && FilterFirst.ValidRange(start, end) && delivered <= 8 * |file|
    requires EncodeShots(rule, kind, img, file, delivered, start, end) ==
             Run(kept, FilterFirst.BitsPerPixel(start, end), 0, |EncodedBits(file, delivered)|)
    requires Run(kept, FilterFirst.BitsPerPixel(start, end), 0, m).Failure? && m <= |EncodedBits(file, delivered)|
    ensures EncodeFitting(rule, kind, img, file, delivered, start, end) == Failure(Crash)
  {
    RunFailsLonger(kept, FilterFirst.BitsPerPixel(start, end), 0, m, |EncodedBits(file, delivered)|);
  }

  /** What encode returns once the message loop has ended in `out`, having placed `shots`. */
  lemma {:induction false} EncodeOutcome(rule: Rule, kind: FilterKind, img: Image, file: seq<Byte>, delivered: nat,
                                         start: int, end: int, kept: seq<FilteredPixel>, shots: seq<Shot>,
                                         out: Result<Image>)
    requires img.Valid() && FilterFirst.ValidRange(start, end) && delivered <= 8 * |file|
    requires EncodeShots(rule, kind, img, file, delivered, start, end) ==
             Run(kept, FilterFirst.BitsPerPixel(start, end), 0, |EncodedBits(file, delivered)|)
    requires Run(kept, FilterFirst.BitsPerPixel(start, end), 0, |shots|) == Success(shots)
    requires out.Failure? ==> out == Failure(Crash) && |shots| < |EncodedBits(file, delivered)| &&
                              Run(kept, FilterFirst.BitsPerPixel(start, end), 0, |shots| + 1).Failure?
    requires out.Success? ==> |shots| == |EncodedBits(file, delivered)| &&
                              WriteBits(img, shots, EncodedBits(file, delivered)) == Success(out.value)
    ensures EncodeFitting(rule, kind, img, file, delivered, start, end) ==
            if out.Failure? then Failure(Crash) else Success(StegoImage(out.value))
  {
    if out.Failure? {
      EncodeCrash(rule, kind, img, file, delivered, start, end, kept, |shots| + 1);
    } else {
      EncodeSpecIs(rule, kind, img, file, delivered, start, end, kept, shots, out.value);
    }
  }

  lemma {:induction false} EncodeSpecIs(rule: Rule, kind: FilterKind, img: Image, file: seq<Byte>, delivered: nat,
                                        start: int, end: int, kept: seq<FilteredPixel>, shots: seq<Shot>, out: Image)
    requires img.Valid() && FilterFirst.ValidRange(start, end) && delivered <= 8 * |file|
    requires EncodeShots(rule, kind, img, file, delivered, start, end) ==
             Run(kept, FilterFirst.BitsPerPixel(start, end), 0, |EncodedBits(file, delivered)|)
    requires Run(kept, FilterFirst.BitsPerPixel(start, end), 0, |EncodedBits(file, delivered)|) == Success(shots)
    requires WriteBits(img, shots, EncodedBits(file, delivered)) == Success(out)
    ensures EncodeFitting(rule, kind, img, file, delivered, start, end) == Success(StegoImage(out))
  {
  }

  /** The header shots are the first picker's first 32 calls. */
  lemma {:induction false} HeaderShotsAre(rule: Rule, kind: FilterKind, img: Image, start: int, end: int,
                                          kept: seq<FilteredPixel>)
    requires img.Valid() && FilterFirst.ValidRange(start, end)
    requires Kept(rule, kind, img, end, KeepCount(50, FilterFirst.BitsPerPixel(start, end))) == Success(kept)
    ensures HeaderShots(rule, kind, img, start, end) == Run(kept, FilterFirst.BitsPerPixel(start, end), 0, 32)
  {
  }

  /** The body shots are calls 32, 33, ... of the second picker, or a crash when it cannot be built. */
  lemma {:induction false} BodyShotsAre(rule: Rule, kind: FilterKind, img: Image, start: int, end: int, length: nat)
    requires img.Valid() && FilterFirst.ValidRange(start, end)
    ensures Kept(rule, kind, img, end, KeepCount(I32(length + 50), FilterFirst.BitsPerPixel(start, end))).Failure? ==>
              BodyShots(rule, kind, img, start, end, length) == Failure(Crash)
    ensures Kept(rule, kind, img, end, KeepCount(I32(length + 50), FilterFirst.BitsPerPixel(start, end))).Success? ==>
              BodyShots(rule, kind, img, start, end, length) ==
              Run(Kept(rule, kind, img, end, KeepCount(I32(length + 50), FilterFirst.BitsPerPixel(start, end))).value,
                  FilterFirst.BitsPerPixel(start, end), 32, length)
  {
    KeptSucceeds(rule, kind, img, end, KeepCount(I32(length + 50), FilterFirst.BitsPerPixel(start, end)));
  }

  /** A call of getShot in the header loop of decode throws: decode crashes. */
  lemma {:induction false} DecodeHeaderCrash(rule: Rule, kind: FilterKind, s: StegoImage, start: int, end: int,
                                             kept: seq<FilteredPixel>, m: nat)
    requires s.Valid() && FilterFirst.ValidRange(start, end)
    requires Kept(rule, kind, s.image, end, KeepCount(50, FilterFirst.BitsPerPixel(start, end))) == Success(kept)
    requires Run(kept, FilterFirst.BitsPerPixel(start, end), 0, m).Failure? && m <= 32
    ensures DecodeOn(rule, kind, s, start, end) == Failure(Crash)
  {
    RunFailsLonger(kept, FilterFirst.BitsPerPixel(start, end), 0, m, 32);
  }

  /** The first picker's 32 calls returned `hshots`, and the bits at them are `header`. */
  ghost predicate HeaderRead(s: StegoImage, kept: seq<FilteredPixel>, bpp: int, hshots: seq<Shot>, header: seq<bool>)
  {
    s.Valid() && |hshots| == 32 && Run(kept, bpp, 0, 32) == Success(hshots) && ReadBits(s.image, hshots) == Success(header)
  }

  /** The second picker's calls 32, 33, ... returned `bshots`, and the bits at them are `body`. */
  ghost predicate BodyRead(s: StegoImage, kept: seq<FilteredPixel>, bpp: int, bshots: seq<Shot>, body: seq<bool>)
  {
    s.Valid() && Run(kept, bpp, 32, |bshots|) == Success(bshots) && ReadBits(s.image, bshots) == Success(body)
  }

  /** Once the 32 header shots are read, decode goes on with the length they hold. */
  lemma {:induction false} DecodeHeaderRead(rule: Rule, kind: FilterKind, s: StegoImage, start: int, end: int,
                                            kept: seq<FilteredPixel>, hshots: seq<Shot>, header: seq<bool>)
    requires s.Valid() && FilterFirst.ValidRange(start, end)
    requires Kept(rule, kind, s.image, end, KeepCount(50, FilterFirst.BitsPerPixel(start, end))) == Success(kept)
    requires HeaderRead(s, kept, FilterFirst.BitsPerPixel(start, end), hshots, header)
    ensures DecodeOn(rule, kind, s, start, end) ==
            DecodeLength(rule, kind, s, start, end, BodyLength(HeaderValue(header)))
  {
    HeaderShotsAre(rule, kind, s.image, start, end, kept);
  }

  lemma {:induction false} DecodeNoMessage(rule: Rule, kind: FilterKind, s: StegoImage, start: int, end: int, length: int)
    requires s.Valid() && FilterFirst.ValidRange(start, end)
    requires Implausible(length, ImageSpace(s.image.width, s.image.height, GetLayerCount(s),
                                            FilterFirst.BitsPerPixel(start, end)))
    ensures DecodeLength(rule, kind, s, start, end, length) == Failure(NoMessage)
  {
  }

  /** The second picker's generateList throws: decode crashes. */
  lemma {:induction false} DecodeBodyPickerCrash(rule: Rule, kind: FilterKind, s: StegoImage, start: int, end: int,
                                                 length: nat)
    requires s.Valid() && FilterFirst.ValidRange(start, end)
    requires !Implausible(length, ImageSpace(s.image.width, s.image.height, GetLayerCount(s),
                                             FilterFirst.BitsPerPixel(start, end)))
    requires Kept(rule, kind, s.image, end, KeepCount(I32(length + 50), FilterFirst.BitsPerPixel(start, end))).Failure?
    ensures DecodeLength(rule, kind, s, start, end, length) == Failure(Crash)
  {
    BodyShotsAre(rule, kind, s.image, start, end, length);
  }

  /** A call of getShot in the body loop of decode throws: decode crashes. */
  lemma {:induction false} DecodeBodyCrash(rule: Rule, kind: FilterKind, s: StegoImage, start: int, end: int,
                                           length: nat, kept2: seq<FilteredPixel>, m: nat)
    requires s.Valid() && FilterFirst.ValidRange(start, end)
    requires !Implausible(length, ImageSpace(s.image.width, s.image.height, GetLayerCount(s),
                                             FilterFirst.BitsPerPixel(start, end)))
    requires Kept(rule, kind, s.image, end, KeepCount(I32(length + 50), FilterFirst.BitsPerPixel(start, end))) ==
             Success(kept2)
    requires Run(kept2, FilterFirst.BitsPerPixel(start, end), 32, m).Failure? && m <= length
    ensures DecodeLength(rule, kind, s, start, end, length) == Failure(Crash)
  {
    RunFailsLonger(kept2, FilterFirst.BitsPerPixel(start, end), 32, m, length);
    BodyShotsAre(rule, kind, s.image, start, end, length);
  }

  lemma {:induction false} DecodeSpecIs(rule: Rule, kind: FilterKind, s: StegoImage, start: int, end: int,
                                        length: nat, kept2: seq<FilteredPixel>, bshots: seq<Shot>, body: seq<bool>)
    requires s.Valid() && FilterFirst.ValidRange(start, end)
    requires !Implausible(length, ImageSpace(s.image.width, s.image.height, GetLayerCount(s),
                                             FilterFirst.BitsPerPixel(start, end)))
    requires Kept(rule, kind, s.image, end, KeepCount(I32(length + 50), FilterFirst.BitsPerPixel(start, end))) ==
             Success(kept2)
    requires BodyRead(s, kept2, FilterFirst.BitsPerPixel(start, end), bshots, body) && |bshots| == length
    ensures DecodeLength(rule, kind, s, start, end, length) == Success(Pack(body))
  {
    BodyShotsAre(rule, kind, s.image, start, end, length);
  }

  /** The simulation's shots are the first calls of its picker. */
  lemma {:induction false} SimulationShotsAre(rule: Rule, kind: FilterKind, img: Image, size: nat, delivered: nat,
                                              start: int, end: int, kept: seq<FilteredPixel>)
    requires img.Valid() && FilterFirst.ValidRange(start, end) && delivered <= 8 * size
    requires Kept(rule, kind, img, end, KeepCount(I32(8 * size + 50), FilterFirst.BitsPerPixel(start, end))) == Success(kept)
    ensures SimulationShots(rule, kind, img, size, delivered, start, end) ==
            Run(kept, FilterFirst.BitsPerPixel(start, end), 0, 32 + (8 * size - delivered))
  {
  }

  /** A call of getShot throws during the simulation: the simulation crashes. */
  lemma {:induction false} SimulationCrash(rule: Rule, kind: FilterKind, img: Image, size: nat, delivered: nat,
                                           start: int, end: int, kept: seq<FilteredPixel>, m: nat)
    requires img.Valid() && FilterFirst.ValidRange(start, end) && delivered <= 8 * size
    requires SimulationShots(rule, kind, img, size, delivered, start, end) ==
             Run(kept, FilterFirst.BitsPerPixel(start, end), 0, 32 + (8 * size - delivered))
    requires Run(kept, FilterFirst.BitsPerPixel(start, end), 0, m).Failure? && m <= 32 + (8 * size - delivered)
    ensures SimulationFitting(rule, kind, img, size, delivered, start, end) == Failure(Crash)
  {
    RunFailsLonger(kept, FilterFirst.BitsPerPixel(start, end), 0, m, 32 + (8 * size - delivered));
  }

  lemma {:induction false} SimulationSpecIs(rule: Rule, kind: FilterKind, img: Image, size: nat, delivered: nat,
                                            start: int, end: int, kept: seq<FilteredPixel>, shots: seq<Shot>, out: Image)
    requires img.Valid() && FilterFirst.ValidRange(start, end) && delivered <= 8 * size
    requires SimulationShots(rule, kind, img, size, delivered, start, end) ==
             Run(kept, FilterFirst.BitsPerPixel(start, end), 0, 32 + (8 * size - delivered))
    requires Run(kept, FilterFirst.BitsPerPixel(start, end), 0, 32 + (8 * size - delivered)) == Success(shots)
    requires Mark(Blacken(img), shots) == Success(out)
    ensures SimulationFitting(rule, kind, img, size, delivered, start, end) == Success(out)
  {
  }

  /** How the second loop of outputSimulation ends decides what the simulation returns. */
  lemma {:induction false} SimulationOfMarks(rule: Rule, kind: FilterKind, img: Image, size: nat, delivered: nat,
                                             start: int, end: int, kept: seq<FilteredPixel>, shots: seq<Shot>,
                                             out: Result<Image>)
    requires img.Valid() && FilterFirst.ValidRange(start, end) && delivered <= 8 * size
    requires SimulationShots(rule, kind, img, size, delivered, start, end) ==
             Run(kept, FilterFirst.BitsPerPixel(start, end), 0, 32 + (8 * size - delivered))
    requires Run(kept, FilterFirst.BitsPerPixel(start, end), 0, |shots|) == Success(shots)
    requires out.Failure? ==> out == Failure(Crash) && |shots| < 32 + (8 * size - delivered) &&
                              Run(kept, FilterFirst.BitsPerPixel(start, end), 0, |shots| + 1).Failure?
    requires out.Success? ==> |shots| == 32 + (8 * size - delivered) &&
                              Marked(img, kept, FilterFirst.BitsPerPixel(start, end), shots, out.value)
    ensures SimulationFitting(rule, kind, img, size, delivered, start, end) == out
  {
    if out.Failure? {
      SimulationCrash(rule, kind, img, size, delivered, start, end, kept, |shots| + 1);
    } else {
      SimulationSpecIs(rule, kind, img, size, delivered, start, end, kept, shots, out.value);
    }
  }

  // ----- the algorithm object -----

  /** After `shots`, encode has written the first |shots| bits of the message's encoding into `img`. */
  ghost predicate Written(cover: Image, file: seq<Byte>, delivered: nat, kept: seq<FilteredPixel>, bpp: int,
                          shots: seq<Shot>, img: Image)
  {
    cover.Valid() && FilterFirst.PositionsIn(kept, cover) && delivered <= 8 * |file| &&
    |shots| <= |EncodedBits(file, delivered)| && Run(kept, bpp, 0, |shots|) == Success(shots) &&
    WriteBits(cover, shots, EncodedBits(file, delivered)[..|shots|]) == Success(img)
  }

  /** After `shots`, outputSimulation has lightened their pixels, in order, in the blacked-out cover. */
  ghost predicate Marked(cover: Image, kept: seq<FilteredPixel>, bpp: int, shots: seq<Shot>, image: Image)
  {
    cover.Valid() && FilterFirst.PositionsIn(kept, cover) && Run(kept, bpp, 0, |shots|) == Success(shots) &&
    Mark(Blacken(cover), shots) == Success(image)
  }

  class DynamicFilterFirst {
    /** mStartBits, mEndBits: the writable bit range. */
    const startBits: int
    const endBits: int
    /** mFilter: scores the pixels; every picker resets its range and image. */
    const filter: Filter
    /** The test generateList admits a pixel into a full set by: the code's, or the comparator's. */
    const rule: Rule

    constructor (start: int, end: int, filter: Filter, rule: Rule)
      requires FilterFirst.ValidRange(start, end)
      ensures startBits == start && endBits == end && this.filter == filter && this.rule == rule
    {
      startBits := start;
      endBits := end;
      this.filter := filter;
      this.rule := rule;
    }

    /**
     * The Java constructor: out-of-range or inverted bit ranges are refused.
     * Its other four parameters are not used.
     */
    static method New(start: int, end: int, filter: Filter, rule: Rule) returns (r: Result<DynamicFilterFirst>)
      ensures r.Failure? <==> !FilterFirst.ValidRange(start, end)
      ensures r.Failure? ==> r.error == IllegalArgument
      ensures r.Success? ==> fresh(r.value) && r.value.startBits == start && r.value.endBits == end &&
                             r.value.filter == filter && r.value.rule == rule
    {
      if start > 6 || start < 0 {
        return Failure(IllegalArgument);
      }
      if end > 6 || end < 0 {
        return Failure(IllegalArgument);
      }
      if start > end {
        return Failure(IllegalArgument);
      }
      var f := new DynamicFilterFirst(start, end, filter, rule);
      return Success(f);
    }

    /** The default constructor: bit range 0..0 and a Laplace filter on bits 1..8. */
    static method Default(rule: Rule) returns (f: DynamicFilterFirst)
      ensures fresh(f) && fresh(f.filter) && f.startBits == 0 && f.endBits == 0 && f.rule == rule
      ensures f.filter.kind == Laplace && f.filter.image.None? && f.filter.startRange == 1 && f.filter.endRange == 8
    {
      var laplace := new Filter.WithRange(Laplace, 1, 8);
      f := new DynamicFilterFirst(0, 0, laplace, rule);
    }

    /** willMessageFit. */
    function WillFit(message: InsertableMessage, img: Image): bool
      requires img.Valid()
    {
      WillMessageFit(message.GetSize(), img.width, img.height, FilterFirst.Layers(img),
                     FilterFirst.BitsPerPixel(startBits, endBits))
    }

    /** encode (without LSB matching). */
    method Encode(message: InsertableMessage, cover: Image) returns (r: Result<StegoImage>)
      requires FilterFirst.ValidRange(startBits, endBits) && cover.Valid() && message.Valid()
      modifies message, filter
      ensures r == EncodeOn(rule, filter.kind, cover, message.file, old(message.Delivered()), startBits, endBits)
      ensures !WillFit(message, cover) ==> unchanged(message, filter)
      ensures WillFit(message, cover) ==>
                filter.Valid() && filter.image == Some(cover) && filter.startRange == endBits + 1 && filter.endRange == 8
      ensures r.Success? ==> message.Valid() && message.Delivered() == 8 * |message.file|
    {
      if !WillFit(message, cover) {
        return Failure(IllegalArgument);
      }
      ghost var bpp := FilterFirst.BitsPerPixel(startBits, endBits);
      ghost var file := message.file;
      ghost var delivered := message.Delivered();
      var messagesize := I32(message.GetSize() * 8 + 32);
      assert messagesize == I32(8 * |file| + 32);
      ghost var size := KeepCount(messagesize, bpp);
      var picked := ShotPicker.New(startBits, endBits, cover, filter, messagesize, 0, rule);
      if picked.Failure? {
        KeptSucceeds(rule, filter.kind, cover, endBits, size);
        return Failure(Crash);
      }
      var rgen := picked.value;
      ghost var kept := rgen.fparray[..];
      KeptPositions(rule, filter.kind, cover, endBits, size);
      EncodeShotsAre(rule, filter.kind, cover, file, delivered, startBits, endBits, kept);
      r := EncodeWith(rgen, rule, filter.kind, startBits, endBits, kept, file, delivered, message, cover);
    }

    /** encode once the picker is built: the header loop, then the message loop. */
    static method EncodeWith(rgen: ShotPicker, ghost rule: Rule, ghost kind: FilterKind, ghost start: int, ghost end: int,
                             ghost kept: seq<FilteredPixel>, ghost file: seq<Byte>, ghost delivered: nat,
                             message: InsertableMessage, cover: Image) returns (r: Result<StegoImage>)
      requires FilterFirst.ValidRange(start, end) && cover.Valid()
      requires message.Valid() && message.file == file && message.Delivered() == delivered
      requires EncodeShots(rule, kind, cover, file, delivered, start, end) ==
               Run(kept, FilterFirst.BitsPerPixel(start, end), 0, |EncodedBits(file, delivered)|)
      requires FilterFirst.PositionsIn(kept, cover) && Picking(rgen, kept, FilterFirst.BitsPerPixel(start, end), 0)
      modifies rgen, message
      ensures r == EncodeFitting(rule, kind, cover, file, delivered, start, end)
      ensures r.Success? ==> message.Valid() && !message.NotFinished()
    {
      ghost var bpp := FilterFirst.BitsPerPixel(start, end);
      var messageSize := I32(message.GetSize());
      assert Written(cover, file, delivered, kept, bpp, [], cover);
      var head, hshots := WriteHeader(rgen, kept, bpp, cover, file, delivered, messageSize);
      if head.Failure? {
        EncodeCrash(rule, kind, cover, file, delivered, start, end, kept, |hshots| + 1);
        return Failure(Crash);
      }
      r := EncodeBody(rgen, rule, kind, start, end, kept, file, delivered, hshots, head.value, message, cover);
    }

    /** The message loop of encode, and what encode returns after it. */
    static method EncodeBody(rgen: ShotPicker, ghost rule: Rule, ghost kind: FilterKind, ghost start: int, ghost end: int,
                             ghost kept: seq<FilteredPixel>, ghost file: seq<Byte>, ghost delivered: nat,
                             ghost hshots: seq<Shot>, image: Image, message: InsertableMessage, ghost cover: Image)
      returns (r: Result<StegoImage>)
      requires FilterFirst.ValidRange(start, end) && cover.Valid()
      requires message.Valid() && message.file == file && message.Delivered() == delivered && |hshots| == 32
      requires EncodeShots(rule, kind, cover, file, delivered, start, end) ==
               Run(kept, FilterFirst.BitsPerPixel(start, end), 0, |EncodedBits(file, delivered)|)
      requires Picking(rgen, kept, FilterFirst.BitsPerPixel(start, end), 32)
      requires Written(cover, file, delivered, kept, FilterFirst.BitsPerPixel(start, end), hshots, image)
      modifies rgen, message
      ensures r == EncodeFitting(rule, kind, cover, file, delivered, start, end)
      ensures r.Success? ==> message.Valid() && !message.NotFinished()
    {
      ghost var bpp := FilterFirst.BitsPerPixel(start, end);
      var out, shots := WriteBody(rgen, kept, bpp, cover, file, delivered, hshots, image, message);
      EncodeOutcome(rule, kind, cover, file, delivered, start, end, kept, shots, out);
      if out.Failure? {
        return Failure(Crash);
      }
      return Success(StegoImage(out.value));
    }

    /** The first loop of encode: the 32 bits of the message size, least significant first. */
    static method WriteHeader(rgen: ShotPicker, ghost kept: seq<FilteredPixel>, ghost bpp: int, cover: Image,
                              ghost file: seq<Byte>, ghost delivered: nat, messageSize: int)
      returns (r: Result<Image>, ghost shots: seq<Shot>)
      requires Picking(rgen, kept, bpp, 0) && Written(cover, file, delivered, kept, bpp, [], cover)
      requires messageSize == I32(|file|)
      modifies rgen
      ensures Run(kept, bpp, 0, |shots|) == Success(shots)
      ensures r.Failure? ==> r == Failure(Crash) && |shots| < 32 && Run(kept, bpp, 0, |shots| + 1).Failure?
      ensures r.Success? ==> |shots| == 32 && Picking(rgen, kept, bpp, 32) &&
                             Written(cover, file, delivered, kept, bpp, shots, r.value)
    {
      shots := [];
      var img := cover;
      for i := 0 to 32
        invariant |shots| == i
        invariant Picking(rgen, kept, bpp, i)
        invariant Written(cover, file, delivered, kept, bpp, shots, img)
      {
        var bit := JavaBit(messageSize, i);
        EncodedHeaderBit(file, delivered, i);
        var next, s := PutBit(rgen, cover, file, delivered, kept, bpp, shots, img, bit);
        if next.Failure? {
          return Failure(Crash), shots;
        }
        shots := shots + [s];
        img := next.value;
      }
      r := Success(img);
    }

    /** The second loop of encode: one message bit per pass until the message is finished. */
    static method WriteBody(rgen: ShotPicker, ghost kept: seq<FilteredPixel>, ghost bpp: int, ghost cover: Image,
                            ghost file: seq<Byte>, ghost delivered: nat, ghost shots0: seq<Shot>, image0: Image,
                            message: InsertableMessage) returns (r: Result<Image>, ghost shots: seq<Shot>)
      requires Picking(rgen, kept, bpp, |shots0|) && Written(cover, file, delivered, kept, bpp, shots0, image0)
      requires message.Valid() && message.file == file && delivered <= message.Delivered()
      requires |shots0| == 32 + (message.Delivered() - delivered)
      modifies rgen, message
      ensures Run(kept, bpp, 0, |shots|) == Success(shots)
      ensures r.Failure? ==> r == Failure(Crash) && |shots| < |EncodedBits(file, delivered)| &&
                             Run(kept, bpp, 0, |shots| + 1).Failure?
      ensures r.Success? ==> |shots| == |EncodedBits(file, delivered)| &&
                             WriteBits(cover, shots, EncodedBits(file, delivered)) == Success(r.value)
      ensures r.Success? ==> message.Valid() && !message.NotFinished()
    {
      shots := shots0;
      var img := image0;
      while message.NotFinished()
        invariant message.Valid() && message.file == file
        invariant delivered <= message.Delivered() <= 8 * |file|
        invariant |shots| == 32 + (message.Delivered() - delivered)
        invariant Picking(rgen, kept, bpp, |shots|)
        invariant Written(cover, file, delivered, kept, bpp, shots, img)
        decreases 8 * |file| - message.Delivered()
      {
        var next, s := PutMessageBit(rgen, cover, file, delivered, kept, bpp, shots, img, message);
        if next.Failure? {
          return Failure(Crash), shots;
        }
        PickingNext(rgen, kept, bpp, shots, s);
        shots := shots + [s];
        img := next.value;
      }
      ghost var bits := EncodedBits(file, delivered);
      assert bits[..|shots|] == bits;
      r := Success(img);
    }

    /** One pass of the message loop of encode: the next shot, the next message bit, the write. */
    static method PutMessageBit(rgen: ShotPicker, ghost cover: Image, ghost file: seq<Byte>, ghost delivered: nat,
                                ghost kept: seq<FilteredPixel>, ghost bpp: int, ghost shots: seq<Shot>,
                                img: Image, message: InsertableMessage) returns (r: Result<Image>, s: Shot)
      requires Picking(rgen, kept, bpp, |shots|)
      requires Written(cover, file, delivered, kept, bpp, shots, img)
      requires message.Valid() && message.file == file && !message.finished
      requires delivered <= message.Delivered() && |shots| == 32 + (message.Delivered() - delivered)
      modifies rgen, message
      ensures r.Failure? ==> r == Failure(Crash) && Run(kept, bpp, 0, |shots| + 1).Failure?
      ensures r.Success? ==> Picking(rgen, kept, bpp, |shots| + 1) &&
                             Written(cover, file, delivered, kept, bpp, shots + [s], r.value)
      ensures r.Success? ==> message.Valid() && message.file == file &&
                             message.Delivered() == old(message.Delivered()) + 1
    {
      var sh := NextShot(rgen, kept, bpp, 0, shots);
      if sh.Failure? {
        return Failure(Crash), Shot(0, 0, 0, 0);
      }
      var bit := NextEncodedBit(message, file, delivered);
      r, s := Put(cover, file, delivered, kept, bpp, shots, img, sh.value, bit);
    }

    /** One pass of the header loop of encode: the next shot, then the write of the size bit. */
    static method PutBit(rgen: ShotPicker, ghost cover: Image, ghost file: seq<Byte>, ghost delivered: nat,
                         ghost kept: seq<FilteredPixel>, ghost bpp: int, ghost shots: seq<Shot>,
                         img: Image, bit: bool) returns (r: Result<Image>, s: Shot)
      requires Picking(rgen, kept, bpp, |shots|)
      requires Written(cover, file, delivered, kept, bpp, shots, img)
      requires |shots| < |EncodedBits(file, delivered)| && bit == EncodedBits(file, delivered)[|shots|]
      modifies rgen
      ensures r.Failure? ==> r == Failure(Crash) && Run(kept, bpp, 0, |shots| + 1).Failure?
      ensures r.Success? ==> Picking(rgen, kept, bpp, |shots| + 1) &&
                             Written(cover, file, delivered, kept, bpp, shots + [s], r.value)
    {
      var sh := NextShot(rgen, kept, bpp, 0, shots);
      if sh.Failure? {
        return Failure(Crash), Shot(0, 0, 0, 0);
      }
      r, s := Put(cover, file, delivered, kept, bpp, shots, img, sh.value, bit);
    }

    /** The write both loops of encode make once the shot and the bit are known. */
    static method Put(ghost cover: Image, ghost file: seq<Byte>, ghost delivered: nat, ghost kept: seq<FilteredPixel>,
                      ghost bpp: int, ghost shots: seq<Shot>, img: Image, sh: Shot, bit: bool)
      returns (r: Result<Image>, s: Shot)
      requires Written(cover, file, delivered, kept, bpp, shots, img)
      requires |shots| < |EncodedBits(file, delivered)| && bit == EncodedBits(file, delivered)[|shots|]
      requires Run(kept, bpp, 0, |shots| + 1) == Success(shots + [sh])
      ensures r.Success? && s == sh && Written(cover, file, delivered, kept, bpp, shots + [s], r.value)
    {
      ghost var bits := EncodedBits(file, delivered);
      ghost var k := |shots|;
      s := sh;
      RunLast(kept, bpp, 0, shots, s);
      CallInImage(kept, bpp, k, cover);
      TakeNext(bits, k);
      WriteStep(cover, shots, bits[..k], img, s, bit);
      r := Success(SetPixelBit(img, s.x, s.y, s.layer, s.bitPos, bit));
    }

    /** decode: the message bytes, as written to the output file. */
    method Decode(simage: StegoImage) returns (r: Result<seq<Byte>>)
      requires FilterFirst.ValidRange(startBits, endBits) && simage.Valid()
      modifies filter
      ensures r == DecodeOn(rule, filter.kind, simage, startBits, endBits)
      ensures filter.Valid() && filter.image == Some(simage.image) && filter.startRange == endBits + 1 &&
              filter.endRange == 8
    {
      ghost var bpp := FilterFirst.BitsPerPixel(startBits, endBits);
      var picked := ShotPicker.New(startBits, endBits, simage.image, filter, 50, 0, rule);
      if picked.Failure? {
        KeptSucceeds(rule, filter.kind, simage.image, endBits, KeepCount(50, bpp));
        return Failure(Crash);
      }
      var rgen := picked.value;
      ghost var kept := rgen.fparray[..];
      KeptPositions(rule, filter.kind, simage.image, endBits, KeepCount(50, bpp));
      var size, hshots, header := ReadSize(rgen, kept, bpp, simage);
      if size.Failure? {
        DecodeHeaderCrash(rule, filter.kind, simage, startBits, endBits, kept, |hshots| + 1);
        return Failure(Crash);
      }
      DecodeHeaderRead(rule, filter.kind, simage, startBits, endBits, kept, hshots, header);
      var size2 := BodyLength(size.value);
      var imageSpace := ImageSpace(simage.image.width, simage.image.height, GetLayerCount(simage),
                                   FilterFirst.BitsPerPixel(startBits, endBits));
      if Implausible(size2, imageSpace) {
        DecodeNoMessage(rule, filter.kind, simage, startBits, endBits, size2);
        return Failure(NoMessage);
      }
      r := DecodeBody(simage, size2);
    }

    /** decode after a plausible header: the second picker, skipping the header's 32 calls, and the body loop. */
    method DecodeBody(simage: StegoImage, size2: nat) returns (r: Result<seq<Byte>>)
      requires FilterFirst.ValidRange(startBits, endBits) && simage.Valid()
      requires !Implausible(size2, ImageSpace(simage.image.width, simage.image.height, GetLayerCount(simage),
                                              FilterFirst.BitsPerPixel(startBits, endBits)))
      modifies filter
      ensures r == DecodeLength(rule, filter.kind, simage, startBits, endBits, size2)
      ensures filter.Valid() && filter.image == Some(simage.image) && filter.startRange == endBits + 1 &&
              filter.endRange == 8
    {
      ghost var bpp := FilterFirst.BitsPerPixel(startBits, endBits);
      ghost var size := KeepCount(I32(size2 + 50), bpp);
      var picked := ShotPicker.New(startBits, endBits, simage.image, filter, I32(size2 + 50), 32, rule);
      if picked.Failure? {
        DecodeBodyPickerCrash(rule, filter.kind, simage, startBits, endBits, size2);
        return Failure(Crash);
      }
      var rgen := picked.value;
      ghost var kept2 := rgen.fparray[..];
      KeptPositions(rule, filter.kind, simage.image, endBits, size);
      var body, bshots, bits := ReadBody(rgen, kept2, bpp, simage, size2);
      if body.Failure? {
        DecodeBodyCrash(rule, filter.kind, simage, startBits, endBits, size2, kept2, |bshots| + 1);
        return Failure(Crash);
      }
      DecodeSpecIs(rule, filter.kind, simage, startBits, endBits, size2, kept2, bshots, bits);
      return body;
    }

    /** The first loop of decode and the bit reversal after it: the message length in bytes. */
    static method ReadSize(rgen: ShotPicker, ghost kept: seq<FilteredPixel>, ghost bpp: int, simage: StegoImage)
      returns (r: Result<int>, ghost hshots: seq<Shot>, ghost header: seq<bool>)
      requires simage.Valid() && FilterFirst.PositionsIn(kept, simage.image) && Picking(rgen, kept, bpp, 0)
      modifies rgen
      ensures r.Failure? ==> r == Failure(Crash) && |hshots| < 32 && Run(kept, bpp, 0, |hshots| + 1).Failure?
      ensures r.Success? ==> HeaderRead(simage, kept, bpp, hshots, header) && r.value == HeaderValue(header)
    {
      var size := 0;
      header := [];
      hshots := [];
      for i := 0 to 32
        invariant |hshots| == i
        invariant Picking(rgen, kept, bpp, i) && Run(kept, bpp, 0, i) == Success(hshots)
        invariant ReadBits(simage.image, hshots) == Success(header)
        invariant |header| == i && size == I32(FromMsb(header))
      {
        var bit, s := ReadNext(rgen, kept, bpp, simage, 0, hshots, header);
        if bit.Failure? {
          return Failure(Crash), hshots, header;
        }
        hshots := hshots + [s];
        ShiftInMsb(header, bit.value == 1);
        size := ShiftIn(size, bit.value == 1);
        header := header + [bit.value == 1];
      }
      var size2 := ReverseHeader(size, header);
      r := Success(size2);
    }

    /** The second loop of decode: `length` bits into a new retrieved message, which is then closed. */
    static method ReadBody(rgen: ShotPicker, ghost kept: seq<FilteredPixel>, ghost bpp: int, simage: StegoImage,
                           length: int) returns (r: Result<seq<Byte>>, ghost bshots: seq<Shot>, ghost body: seq<bool>)
      requires 0 <= length && simage.Valid() && FilterFirst.PositionsIn(kept, simage.image) && Picking(rgen, kept, bpp, 32)
      modifies rgen
      ensures BodyRead(simage, kept, bpp, bshots, body)
      ensures r.Failure? ==> r == Failure(Crash) && |bshots| < length && Run(kept, bpp, 32, |bshots| + 1).Failure?
      ensures r.Success? ==> |bshots| == length && r.value == Pack(body)
    {
      var message := new RetrievedMessage();
      var read;
      read, bshots, body := ReadBodyBits(rgen, kept, bpp, simage, length, message);
      if read.Failure? {
        RunStopsAt(kept, bpp, 32, bshots);
        return Failure(Crash), bshots, body;
      }
      message.Close();
      return Success(message.output), bshots, body;
    }

    /** The loop of ReadBody: up to `length` bits into `message`, stopping at the first shot that fails. */
    static method ReadBodyBits(rgen: ShotPicker, ghost kept: seq<FilteredPixel>, ghost bpp: int, simage: StegoImage,
                               length: int, message: RetrievedMessage)
      returns (r: Result<()>, ghost bshots: seq<Shot>, ghost body: seq<bool>)
      requires 0 <= length && simage.Valid() && FilterFirst.PositionsIn(kept, simage.image) && Picking(rgen, kept, bpp, 32)
      requires message.Valid() && !message.finished && message.received == []
      modifies rgen, message
      ensures BodyRead(simage, kept, bpp, bshots, body)
      ensures r.Failure? ==> |bshots| < length && Call(kept, bpp, 32 + |bshots|).Failure?
      ensures r.Success? ==> |bshots| == length && message.Valid() && !message.finished && message.received == body
    {
      bshots := [];
      for k := 0 to length
        invariant |bshots| == k
        invariant Picking(rgen, kept, bpp, 32 + |bshots|)
        invariant message.Valid() && !message.finished
        invariant Run(kept, bpp, 32, |bshots|) == Success(bshots)
        invariant ReadBits(simage.image, bshots) == Success(message.received)
      {
        var next, s := ReadBodyBit(rgen, kept, bpp, simage, bshots, message);
        if next.Failure? {
          assert BodyRead(simage, kept, bpp, bshots, message.received);
          return Failure(Crash), bshots, message.received;
        }
        bshots := bshots + [s];
      }
      assert BodyRead(simage, kept, bpp, bshots, message.received);
      r, body := Success(()), message.received;
    }

    /** One pass of the second loop of decode: the next bit goes to the retrieved message. */
    static method ReadBodyBit(rgen: ShotPicker, ghost kept: seq<FilteredPixel>, ghost bpp: int, simage: StegoImage,
                              ghost bshots: seq<Shot>, message: RetrievedMessage) returns (r: Result<()>, s: Shot)
      requires simage.Valid() && FilterFirst.PositionsIn(kept, simage.image) && Picking(rgen, kept, bpp, 32 + |bshots|)
      requires message.Valid() && !message.finished
      requires Run(kept, bpp, 32, |bshots|) == Success(bshots) && ReadBits(simage.image, bshots) == Success(message.received)
      modifies rgen, message
      ensures r.Failure? ==> r == Failure(Crash) && Call(kept, bpp, 32 + |bshots|).Failure? &&
                             message.received == old(message.received)
      ensures r.Success? ==> Picking(rgen, kept, bpp, 32 + |bshots| + 1) && message.Valid() && !message.finished &&
                             Run(kept, bpp, 32, |bshots| + 1) == Success(bshots + [s]) &&
                             ReadBits(simage.image, bshots + [s]) == Success(message.received)
    {
      var bit;
      bit, s := ReadNext(rgen, kept, bpp, simage, 32, bshots, message.received);
      if bit.Failure? {
        return Failure(Crash), s;
      }
      ghost var got := message.received + [bit.value == 1];
      assert Picking(rgen, kept, bpp, 32 + |bshots| + 1) && ReadBits(simage.image, bshots + [s]) == Success(got);
      var _ := message.SetNext(bit.value == 1);
      r := Success(());
    }

    /**
     * The body of both loops of decode: the next shot and the bit at it.
     * `shots` are this loop's earlier shots, starting at call lo, and `prev`
     * their bits.
     */
    static method ReadNext(rgen: ShotPicker, ghost kept: seq<FilteredPixel>, ghost bpp: int, simage: StegoImage,
                           ghost lo: nat, ghost shots: seq<Shot>, ghost prev: seq<bool>) returns (r: Result<int>, s: Shot)
      requires simage.Valid() && FilterFirst.PositionsIn(kept, simage.image)
      requires Picking(rgen, kept, bpp, lo + |shots|) && Run(kept, bpp, lo, |shots|) == Success(shots)
      requires ReadBits(simage.image, shots) == Success(prev)
      modifies rgen
      ensures r.Failure? ==> r == Failure(Crash) && Call(kept, bpp, lo + |shots|).Failure? &&
                             Run(kept, bpp, lo, |shots| + 1).Failure?
      ensures r.Success? ==>
                (r.value == 0 || r.value == 1) &&
                Picking(rgen, kept, bpp, lo + |shots| + 1) && Run(kept, bpp, lo, |shots| + 1) == Success(shots + [s]) &&
                ReadBits(simage.image, shots + [s]) == Success(prev + [r.value == 1])
    {
      var sh := NextShot(rgen, kept, bpp, lo, shots);
      if sh.Failure? {
        return Failure(Crash), Shot(0, 0, 0, 0);
      }
      s := sh.value;
      RunLast(kept, bpp, lo, shots, s);
      CallInImage(kept, bpp, lo + |shots|, simage.image);
      r := GetPixelBit(simage, s.x, s.y, s.layer, s.bitPos);
      ReadStep(simage.image, shots, prev, s, r.value);
    }

    /** outputSimulation: the map of the pixels encode would write to. */
    method OutputSimulation(message: InsertableMessage, cover: Image) returns (r: Result<Image>)
      requires FilterFirst.ValidRange(startBits, endBits) && cover.Valid() && message.Valid()
      modifies message, filter
      ensures r == SimulationOn(rule, filter.kind, cover, |message.file|, old(message.Delivered()), startBits, endBits)
      ensures !WillFit(message, cover) ==> unchanged(message, filter)
      ensures WillFit(message, cover) ==>
                filter.Valid() && filter.image == Some(cover) && filter.startRange == endBits + 1 && filter.endRange == 8
      ensures r.Success? ==> message.Valid() && message.Delivered() == 8 * |message.file|
    {
      if !WillFit(message, cover) {
        return Failure(IllegalArgument);
      }
      ghost var bpp := FilterFirst.BitsPerPixel(startBits, endBits);
      ghost var n := |message.file|;
      ghost var delivered := message.Delivered();
      var messagesize := I32(message.GetSize() * 8 + 50);
      assert messagesize == I32(8 * n + 50);
      ghost var size := KeepCount(messagesize, bpp);
      var picked := ShotPicker.New(startBits, endBits, cover, filter, messagesize, 0, rule);
      if picked.Failure? {
        KeptSucceeds(rule, filter.kind, cover, endBits, size);
        return Failure(Crash);
      }
      var rgen := picked.value;
      ghost var kept := rgen.fparray[..];
      KeptPositions(rule, filter.kind, cover, endBits, size);
      SimulationShotsAre(rule, filter.kind, cover, n, delivered, startBits, endBits, kept);
      r := SimulateWith(rgen, rule, filter.kind, startBits, endBits, kept, n, delivered, message, cover);
    }

    /** outputSimulation once the picker is built: the blackout, then the header loop. */
    static method SimulateWith(rgen: ShotPicker, ghost rule: Rule, ghost kind: FilterKind, ghost start: int,
                               ghost end: int, ghost kept: seq<FilteredPixel>, ghost size: nat, ghost delivered: nat,
                               message: InsertableMessage, cover: Image) returns (r: Result<Image>)
      requires FilterFirst.ValidRange(start, end) && cover.Valid()
      requires message.Valid() && |message.file| == size && message.Delivered() == delivered
      requires SimulationShots(rule, kind, cover, size, delivered, start, end) ==
               Run(kept, FilterFirst.BitsPerPixel(start, end), 0, 32 + (8 * size - delivered))
      requires FilterFirst.PositionsIn(kept, cover) && Picking(rgen, kept, FilterFirst.BitsPerPixel(start, end), 0)
      modifies rgen, message
      ensures r == SimulationFitting(rule, kind, cover, size, delivered, start, end)
      ensures r.Success? ==> message.Valid() && !message.NotFinished()
    {
      ghost var bpp := FilterFirst.BitsPerPixel(start, end);
      var blank := BlackOut(cover);
      var head, shots := MarkHeader(rgen, kept, bpp, cover, blank);
      if head.Failure? {
        SimulationCrash(rule, kind, cover, size, delivered, start, end, kept, |shots| + 1);
        return Failure(Crash);
      }
      r := SimulateBody(rgen, rule, kind, start, end, kept, size, delivered, shots, head.value, message, cover);
    }

    /** The second loop of outputSimulation, and what it returns after it. */
    static method SimulateBody(rgen: ShotPicker, ghost rule: Rule, ghost kind: FilterKind, ghost start: int,
                               ghost end: int, ghost kept: seq<FilteredPixel>, ghost size: nat, ghost delivered: nat,
                               ghost hshots: seq<Shot>, image: Image, message: InsertableMessage, ghost cover: Image)
      returns (r: Result<Image>)
      requires FilterFirst.ValidRange(start, end) && cover.Valid()
      requires message.Valid() && |message.file| == size && message.Delivered() == delivered && |hshots| == 32
      requires SimulationShots(rule, kind, cover, size, delivered, start, end) ==
               Run(kept, FilterFirst.BitsPerPixel(start, end), 0, 32 + (8 * size - delivered))
      requires Picking(rgen, kept, FilterFirst.BitsPerPixel(start, end), 32)
      requires Marked(cover, kept, FilterFirst.BitsPerPixel(start, end), hshots, image)
      modifies rgen, message
      ensures r == SimulationFitting(rule, kind, cover, size, delivered, start, end)
      ensures r.Success? ==> message.Valid() && !message.NotFinished()
    {
      ghost var bpp := FilterFirst.BitsPerPixel(start, end);
      ghost var body;
      r, body := MarkBody(rgen, kept, bpp, cover, hshots, image, message, size, delivered);
      SimulationOfMarks(rule, kind, cover, size, delivered, start, end, kept, body, r);
    }

    /** The first loop of outputSimulation: 32 shots lightened for the length header. */
    static method MarkHeader(rgen: ShotPicker, ghost kept: seq<FilteredPixel>, ghost bpp: int, ghost cover: Image,
                             blank: Image) returns (r: Result<Image>, ghost shots: seq<Shot>)
      requires Picking(rgen, kept, bpp, 0) && Marked(cover, kept, bpp, [], blank)
      modifies rgen
      ensures Run(kept, bpp, 0, |shots|) == Success(shots)
      ensures r.Failure? ==> r == Failure(Crash) && |shots| < 32 && Run(kept, bpp, 0, |shots| + 1).Failure?
      ensures r.Success? ==> |shots| == 32 && Picking(rgen, kept, bpp, 32) && Marked(cover, kept, bpp, shots, r.value)
    {
      var image := blank;
      shots := [];
      for i := 0 to 32
        invariant |shots| == i
        invariant Picking(rgen, kept, bpp, i)
        invariant Marked(cover, kept, bpp, shots, image)
      {
        var next, s := MarkNext(rgen, kept, bpp, cover, shots, image);
        if next.Failure? {
          return Failure(Crash), shots;
        }
        shots := shots + [s];
        image := next.value;
      }
      r := Success(image);
    }

    /** The second loop of outputSimulation: one shot per message bit until the message is finished. */
    static method MarkBody(rgen: ShotPicker, ghost kept: seq<FilteredPixel>, ghost bpp: int, ghost cover: Image,
                           ghost shots0: seq<Shot>, image0: Image, message: InsertableMessage, ghost size: nat,
                           ghost delivered: nat) returns (r: Result<Image>, ghost shots: seq<Shot>)
      requires Picking(rgen, kept, bpp, |shots0|) && Marked(cover, kept, bpp, shots0, image0)
      requires message.Valid() && |message.file| == size && delivered <= message.Delivered()
      requires |shots0| == 32 + (message.Delivered() - delivered)
      modifies rgen, message
      ensures Run(kept, bpp, 0, |shots|) == Success(shots)
      ensures r.Failure? ==> r == Failure(Crash) && |shots| < 32 + (8 * size - delivered) &&
                             Run(kept, bpp, 0, |shots| + 1).Failure?
      ensures r.Success? ==> |shots| == 32 + (8 * size - delivered) && Marked(cover, kept, bpp, shots, r.value)
      ensures r.Success? ==> message.Valid() && !message.NotFinished()
    {
      shots := shots0;
      var image := image0;
      while message.NotFinished()
        invariant message.Valid() && |message.file| == size
        invariant delivered <= message.Delivered() <= 8 * size
        invariant |shots| == 32 + (message.Delivered() - delivered)
        invariant Picking(rgen, kept, bpp, |shots|)
        invariant Marked(cover, kept, bpp, shots, image)
        decreases 8 * size - message.Delivered()
      {
        var next, s := MarkNext(rgen, kept, bpp, cover, shots, image);
        if next.Failure? {
          return Failure(Crash), shots;
        }
        PickingNext(rgen, kept, bpp, shots, s);
        shots := shots + [s];
        image := next.value;
        SkipBit(message);
      }
      r := Success(image);
    }

    /** `message.nextBit()` with the bit unused: one more bit delivered. */
    static method SkipBit(message: InsertableMessage)
      requires message.Valid() && message.NotFinished()
      modifies message
      ensures message.Valid()
      ensures message.Delivered() == old(message.Delivered()) + 1
    {
      var _ := message.NextBit();
    }

    /** One pass of either loop of outputSimulation: the next shot and the lightening of its pixel. */
    static method MarkNext(rgen: ShotPicker, ghost kept: seq<FilteredPixel>, ghost bpp: int, ghost cover: Image,
                           ghost shots: seq<Shot>, image: Image) returns (r: Result<Image>, s: Shot)
      requires Picking(rgen, kept, bpp, |shots|) && Marked(cover, kept, bpp, shots, image)
      modifies rgen
      ensures r.Failure? ==> r == Failure(Crash) && Run(kept, bpp, 0, |shots| + 1).Failure?
      ensures r.Success? ==> Picking(rgen, kept, bpp, |shots| + 1) && Marked(cover, kept, bpp, shots + [s], r.value)
    {
      var sh := NextShot(rgen, kept, bpp, 0, shots);
      if sh.Failure? {
        return Failure(Crash), Shot(0, 0, 0, 0);
      }
      s := sh.value;
      RunLast(kept, bpp, 0, shots, s);
      CallInImage(kept, bpp, |shots|, cover);
      MarkStep(Blacken(cover), shots, image, s);
      r := Success(SetRGB(image, s.x, s.y, DecreaseDarkness(image.RGB(s.x, s.y))));
    }
  }
}
