/**
 * What every `outputSimulation` of the toolkit draws: the cover is painted
 * black and the pixel of every shot encode would make is lightened with
 * `decreaseDarkness`, so the pixels encode writes to show up as non-black.
 */
module Simulation {
  import opened Basics
  import opened Raster
  import opened Protocol

  /** decreaseDarkness: `colour << 1 | 0x0f0f0f0f`. */
  function DecreaseDarkness(colour: bv32): (r: bv32)
    ensures r & 0x0f0f_0f0f == 0x0f0f_0f0f
  {
    (colour << 1) | 0x0f0f_0f0f
  }

  /** A row of w black pixels. */
  function BlackRow(w: nat): (r: seq<bv32>)
    ensures |r| == w && forall x :: 0 <= x < w ==> r[x] == 0
  {
    if w == 0 then [] else BlackRow(w - 1) + [0]
  }

  /** h rows of w black pixels. */
  function BlackRows(h: nat, w: nat): (r: seq<seq<bv32>>)
    ensures |r| == h && forall y :: 0 <= y < h ==> r[y] == BlackRow(w)
  {
    if h == 0 then [] else BlackRows(h - 1, w) + [BlackRow(w)]
  }

  /** The image with every pixel black. */
  function Blacken(img: Image): (r: Image)
    requires img.Valid()
    ensures r.Valid() && r.width == img.width && r.height == img.height && r.kind == img.kind
  {
    img.(pixels := BlackRows(img.height, img.width))
  }

  /** Blackening keeps the image's size, so the same shots fall inside it. */
  lemma {:induction false} BlackenBounds(img: Image, shots: seq<Shot>)
    requires img.Valid()
    ensures AllInBounds(img, shots) <==> AllInBounds(Blacken(img), shots)
  {
    var b := Blacken(img);
    forall i | 0 <= i < |shots|
      ensures img.InBounds(shots[i].x, shots[i].y) <==> b.InBounds(shots[i].x, shots[i].y)
    {
    }
  }

  /** Every pixel of the blackened image is black. */
  lemma {:induction false} BlackenIsBlack(img: Image, x: int, y: int)
    requires img.Valid() && Blacken(img).InBounds(x, y)
    ensures Blacken(img).RGB(x, y) == 0
  {
  }

  /** Lightens the pixel of every shot, one after another. */
  function Mark(img: Image, shots: seq<Shot>): (r: Result<Image>)
    requires img.Valid()
    ensures r.Success? <==> AllInBounds(img, shots)
    ensures r.Failure? ==> r.error == Crash
    ensures r.Success? ==> r.value.Valid() && r.value.width == img.width &&
                           r.value.height == img.height && r.value.kind == img.kind
    decreases |shots|
  {
    if shots == [] then Success(img)
    else
      var n := |shots| - 1;
      match Mark(img, shots[..n])
      case Failure(e) => Failure(e)
      case Success(im) =>
        var s := shots[n];
        if im.InBounds(s.x, s.y) then Success(SetRGB(im, s.x, s.y, DecreaseDarkness(im.RGB(s.x, s.y))))
        else Failure(Crash)
  }

  /** Some shot lands on pixel (x, y). */
  predicate Hits(shots: seq<Shot>, x: int, y: int)
  {
    exists i :: 0 <= i < |shots| && shots[i].x == x && shots[i].y == y
  }

  lemma {:induction false} HitsSnoc(shots: seq<Shot>, x: int, y: int)
    requires shots != []
    ensures Hits(shots, x, y) <==>
            Hits(shots[..|shots| - 1], x, y) || (shots[|shots| - 1].x == x && shots[|shots| - 1].y == y)
  {
    var n := |shots| - 1;
    if Hits(shots, x, y) && !(shots[n].x == x && shots[n].y == y) {
      var i :| 0 <= i < |shots| && shots[i].x == x && shots[i].y == y;
      assert shots[..n][i] == shots[i];
    }
    if Hits(shots[..n], x, y) {
      var i :| 0 <= i < n && shots[..n][i].x == x && shots[..n][i].y == y;
      assert shots[i] == shots[..n][i];
    }
  }

  /** A lightened pixel is never black. */
  lemma {:induction false} LightenedIsLit(colour: bv32)
    ensures DecreaseDarkness(colour) != 0
  {
    assert DecreaseDarkness(colour) & 0x0f0f_0f0f != 0;
  }

  /** Starting from black, a pixel ends up non-black exactly when some shot hit it. */
  lemma {:induction false} MarkHits(img: Image, shots: seq<Shot>, x: int, y: int)
    requires img.Valid() && AllInBounds(img, shots) && img.InBounds(x, y)
    requires forall x', y' :: img.InBounds(x', y') ==> img.RGB(x', y') == 0
    ensures Mark(img, shots).value.RGB(x, y) != 0 <==> Hits(shots, x, y)
    decreases |shots|
  {
    if shots != [] {
      var n := |shots| - 1;
      assert AllInBounds(img, shots[..n]);
      MarkHits(img, shots[..n], x, y);
      HitsSnoc(shots, x, y);
      var prev := Mark(img, shots[..n]).value;
      var s := shots[n];
      var lit := DecreaseDarkness(prev.RGB(s.x, s.y));
      assert Mark(img, shots).value == SetRGB(prev, s.x, s.y, lit);
      if s.x == x && s.y == y {
        LightenedIsLit(prev.RGB(s.x, s.y));
      }
    } else {
      assert !Hits(shots, x, y);
    }
  }

  lemma {:induction false} MarkStep(img: Image, shots: seq<Shot>, cur: Image, s: Shot)
    requires img.Valid() && Mark(img, shots) == Success(cur) && cur.InBounds(s.x, s.y)
    ensures Mark(img, shots + [s]) == Success(SetRGB(cur, s.x, s.y, DecreaseDarkness(cur.RGB(s.x, s.y))))
  {
    assert (shots + [s])[..|shots|] == shots;
  }

  /** The nested loops of outputSimulation that paint every pixel black. */
  method BlackOut(img: Image) returns (r: Image)
    requires img.Valid()
    ensures r == Blacken(img)
  {
    r := img;
    for i := 0 to img.height
      invariant r.Valid() && r.width == img.width && r.height == img.height && r.kind == img.kind
      invariant forall y :: 0 <= y < i ==> r.pixels[y] == BlackRow(img.width)
    {
      for j := 0 to img.width
        invariant r.Valid() && r.width == img.width && r.height == img.height && r.kind == img.kind
        invariant forall y :: 0 <= y < i ==> r.pixels[y] == BlackRow(img.width)
        invariant forall x :: 0 <= x < j ==> r.pixels[i][x] == 0
      {
        r := SetRGB(r, j, i, 0);
      }
      assert r.pixels[i] == BlackRow(img.width);
    }
    assert r.pixels == BlackRows(img.height, img.width);
  }

  /** Writing bits at a run of shots leaves every pixel no shot hits as it was. */
  lemma {:induction false} WriteBitsOutsideHits(img: Image, shots: seq<Shot>, bits: seq<bool>, x: int, y: int)
    requires img.Valid() && |shots| == |bits| && AllInBounds(img, shots)
    requires img.InBounds(x, y) && !Hits(shots, x, y)
    ensures WriteBits(img, shots, bits).value.RGB(x, y) == img.RGB(x, y)
    decreases |shots|
  {
    if shots != [] {
      var n := |shots| - 1;
      HitsSnoc(shots, x, y);
      assert AllInBounds(img, shots[..n]);
      WriteBitsOutsideHits(img, shots[..n], bits[..n], x, y);
    }
  }
}
