/** The skeletonizer: repeated 3x3 erosion of the road mask, keeping at every pass the
    pixels of the eroded image that a morphological opening removes. */
module Skeleton {
  import opened Grids

  /** A pixel outside the image counts as set for erosion (OpenCV's default border for `erode`). */
  predicate SetOrOutside(g: Grid, w: nat, h: nat, x: int, y: int) {
    !InBounds(x, y, w, h) || IsSet(g, x, y)
  }

  /** The coordinate `d` steps from `c`; naming the shift keeps the 3x3 quantifiers below lazy. */
  function Shift(c: int, d: int): int {
    c + d
  }

  /** Pixel (x, y) survives a 3x3 erosion: its whole 3x3 neighbourhood is set or outside. */
  predicate Survives(g: Grid, w: nat, h: nat, x: int, y: int) {
    forall dx, dy | -1 <= dx <= 1 && -1 <= dy <= 1 :: SetOrOutside(g, w, h, Shift(x, dx), Shift(y, dy))
  }

  /** Pixel (x, y) is reached by a 3x3 dilation: some pixel of its neighbourhood is set
      (pixels outside the image count as unset for dilation). */
  predicate Touched(g: Grid, x: int, y: int) {
    exists dx, dy | -1 <= dx <= 1 && -1 <= dy <= 1 :: IsSet(g, Shift(x, dx), Shift(y, dy))
  }

  /** `cv2.erode(g, None)`: erosion by the default 3x3 rectangular element. */
  function Erode(g: Grid, w: nat, h: nat): Grid
  {
    set p | p in Cells(w, h) && Survives(g, w, h, p.x, p.y)
  }

  /** Dilation by the default 3x3 rectangular element. */
  function Dilate(g: Grid, w: nat, h: nat): Grid
  {
    set p | p in Cells(w, h) && Touched(g, p.x, p.y)
  }

  /** `cv2.morphologyEx(g, cv2.MORPH_OPEN, None)`: erosion followed by dilation. */
  function Open(g: Grid, w: nat, h: nat): Grid
  {
    Dilate(Erode(g, w, h), w, h)
  }

  /** The working image after `k` passes: the mask eroded `k` times. */
  function ErodeN(mask: Grid, w: nat, h: nat, k: nat): Grid {
    if k == 0 then mask else Erode(ErodeN(mask, w, h, k - 1), w, h)
  }

  /** The pixels one pass adds to the skeleton: `eroded - opened`. */
  function Thin(eroded: Grid, w: nat, h: nat): Grid {
    eroded - Open(eroded, w, h)
  }

  /** The accumulator after `k` passes. */
  function SkeletonUpTo(mask: Grid, w: nat, h: nat, k: nat): Grid {
    if k == 0 then {} else SkeletonUpTo(mask, w, h, k - 1) + Thin(ErodeN(mask, w, h, k), w, h)
  }

  /** Erosion never adds a pixel: every pixel lies in its own window. */
  lemma ErodeWithin(g: Grid, w: nat, h: nat)
    ensures Erode(g, w, h) <= g
  {
    forall p | p in Erode(g, w, h) ensures p in g {
      assert SetOrOutside(g, w, h, Shift(p.x, 0), Shift(p.y, 0));
    }
  }

  /** Opening never adds a pixel either, so the uint8 difference `eroded - opened` of the
      source never wraps around and is exactly the set difference used by `Thin`. */
  lemma OpenWithin(g: Grid, w: nat, h: nat)
    ensures Open(g, w, h) <= g
  {
    var e := Erode(g, w, h);
    forall p | p in Open(g, w, h) ensures p in g {
      // the set pixel of the window survived erosion, so its own window, which holds p, was set
      var dx, dy :| -1 <= dx <= 1 && -1 <= dy <= 1 && IsSet(e, Shift(p.x, dx), Shift(p.y, dy));
      assert Survives(g, w, h, Shift(p.x, dx), Shift(p.y, dy));
      assert SetOrOutside(g, w, h, Shift(Shift(p.x, dx), -dx), Shift(Shift(p.y, dy), -dy));
    }
  }

  /** The working image never gains a pixel from one pass to the next, and stays within the mask. */
  lemma {:induction false} ErodeNShrinks(mask: Grid, w: nat, h: nat, k: nat)
    ensures ErodeN(mask, w, h, k + 1) <= ErodeN(mask, w, h, k) <= mask
  {
    if k > 0 {
      ErodeNShrinks(mask, w, h, k - 1);
    }
    ErodeWithin(ErodeN(mask, w, h, k), w, h);
  }

  /** Since the working image only shrinks, a nonempty pass means every earlier pass was nonempty. */
  lemma {:induction false} EarlierPassesNonEmpty(mask: Grid, w: nat, h: nat, m: nat)
    requires ErodeN(mask, w, h, m) != {}
    ensures forall j :: 0 <= j <= m ==> ErodeN(mask, w, h, j) != {}
  {
    if m > 0 {
      ErodeNShrinks(mask, w, h, m - 1);
      var p :| p in ErodeN(mask, w, h, m);
      assert p in ErodeN(mask, w, h, m - 1);
      EarlierPassesNonEmpty(mask, w, h, m - 1);
    }
  }

  /** One pass of the loop: from the state after `k` passes to the state after `k + 1`. */
  lemma SkeletonStep(mask: Grid, w: nat, h: nat, k: nat, img: Grid, skeleton: Grid)
    requires img == ErodeN(mask, w, h, k) && skeleton == SkeletonUpTo(mask, w, h, k)
    ensures Erode(img, w, h) == ErodeN(mask, w, h, k + 1)
    ensures skeleton + Thin(Erode(img, w, h), w, h) == SkeletonUpTo(mask, w, h, k + 1)
  {
  }

  /** The source's loop stops after exactly `n` passes: the `n`-th erosion is the first
      to leave no set pixel. */
  ghost predicate StopsAfter(mask: Grid, w: nat, h: nat, n: nat) {
    n >= 1 && ErodeN(mask, w, h, n) == {} && forall j :: 1 <= j < n ==> ErodeN(mask, w, h, j) != {}
  }

  lemma StopsAfterLastPass(mask: Grid, w: nat, h: nat, n: nat)
    requires n >= 1 && ErodeN(mask, w, h, n) == {}
    requires n == 1 || ErodeN(mask, w, h, n - 1) != {}
    ensures StopsAfter(mask, w, h, n)
  {
    if n > 1 {
      EarlierPassesNonEmpty(mask, w, h, n - 1);
    }
  }

  /** Every skeleton pixel is set in the mask: each comes from `eroded - opened`, and
      `eroded` is an erosion of the mask. */
  lemma {:induction false} SkeletonWithinMask(mask: Grid, w: nat, h: nat, k: nat)
    ensures SkeletonUpTo(mask, w, h, k) <= mask
  {
    if k > 0 {
      var acc, e := SkeletonUpTo(mask, w, h, k - 1), ErodeN(mask, w, h, k);
      SkeletonWithinMask(mask, w, h, k - 1);
      ErodeNShrinks(mask, w, h, k);
      assert acc <= mask && e <= mask;
      assert SkeletonUpTo(mask, w, h, k) == acc + Thin(e, w, h);
    }
  }

  /** An image whose every pixel is set is left unchanged by erosion (the border counts as
      set), so for it the working image never empties and the source's loop never ends. */
  lemma FullMaskIsFixedPoint(g: Grid, w: nat, h: nat)
    requires g == Cells(w, h)
    ensures Erode(g, w, h) == g
  {
    forall p | p in g ensures p in Erode(g, w, h) {
      assert Survives(g, w, h, p.x, p.y);
    }
    ErodeWithin(g, w, h);
  }

  /** Around an unset pixel `q`, the unset region grows by one Chebyshev step per erosion. */
  lemma ErodeWidensHole(g: Grid, w: nat, h: nat, q: Point, k: nat)
    requires InBounds(q.x, q.y, w, h)
    requires forall p :: p in Cells(w, h) && Chebyshev(p, q) <= k ==> p !in g
    ensures forall p :: p in Cells(w, h) && Chebyshev(p, q) <= k + 1 ==> p !in Erode(g, w, h)
  {
    forall p | p in Cells(w, h) && Chebyshev(p, q) <= k + 1
      ensures p !in Erode(g, w, h)
    {
      // one step from p towards q stays in the image and is within k of q
      var sx := if q.x < p.x then -1 else if q.x > p.x then 1 else 0;
      var sy := if q.y < p.y then -1 else if q.y > p.y then 1 else 0;
      assert Chebyshev(Point(p.x + sx, p.y + sy), q) <= k;
      assert !SetOrOutside(g, w, h, Shift(p.x, sx), Shift(p.y, sy));
    }
  }

  /** After `k` passes no pixel within Chebyshev distance `k` of an unset pixel `q` is left. */
  lemma {:induction false} ErodeNHole(mask: Grid, w: nat, h: nat, q: Point, k: nat)
    requires InBounds(q.x, q.y, w, h) && q !in mask
    ensures forall p :: p in Cells(w, h) && Chebyshev(p, q) <= k ==> p !in ErodeN(mask, w, h, k)
  {
    if k > 0 {
      ErodeNHole(mask, w, h, q, k - 1);
      ErodeWidensHole(ErodeN(mask, w, h, k - 1), w, h, q, k - 1);
    }
  }

  /** With an unset pixel in the mask, the working image is empty after at most `w + h - 1`
      passes, so the source's loop ends. */
  lemma PassBound(mask: Grid, w: nat, h: nat, q: Point, k: nat)
    requires Fits(mask, w, h) && InBounds(q.x, q.y, w, h) && q !in mask
    requires ErodeN(mask, w, h, k) != {}
    ensures k + 1 < w + h
  {
    var p :| p in ErodeN(mask, w, h, k);
    ErodeNShrinks(mask, w, h, k);
    ErodeNHole(mask, w, h, q, k);
    assert Chebyshev(p, q) > k;
  }

  /** An eroded image is closed towards the left and top border: the window of a pixel in
      the first column is the window of its right neighbour with the column outside the
      image, which counts as set, in place of the third one. */
  lemma ErodeBorderClosed(g: Grid, w: nat, h: nat)
    ensures BorderClosed(Erode(g, w, h))
  {
    var e := Erode(g, w, h);
    forall y | Point(1, y) in e ensures Point(0, y) in e {
      forall dx, dy | -1 <= dx <= 1 && -1 <= dy <= 1
        ensures SetOrOutside(g, w, h, Shift(0, dx), Shift(y, dy))
      {
        if dx >= 0 {
          assert SetOrOutside(g, w, h, Shift(1, dx - 1), Shift(y, dy));
        }
      }
    }
    forall x | Point(x, 1) in e ensures Point(x, 0) in e {
      forall dx, dy | -1 <= dx <= 1 && -1 <= dy <= 1
        ensures SetOrOutside(g, w, h, Shift(x, dx), Shift(0, dy))
      {
        if dy >= 0 {
          assert SetOrOutside(g, w, h, Shift(x, dx), Shift(1, dy - 1));
        }
      }
    }
  }

  /** Whatever the opening reaches in the first column it also reaches one column right, and
      whatever it reaches in the first row it also reaches one row down: the eroded pixel
      responsible lies inside the image, so within one step of both. */
  lemma OpenReachesInward(e: Grid, w: nat, h: nat, p: Point)
    requires p in Cells(w, h)
    ensures p.x == 1 && Point(0, p.y) in Open(e, w, h) ==> p in Open(e, w, h)
    ensures p.y == 1 && Point(p.x, 0) in Open(e, w, h) ==> p in Open(e, w, h)
  {
    var er := Erode(e, w, h);
    if p.x == 1 && Point(0, p.y) in Open(e, w, h) {
      var dx, dy :| -1 <= dx <= 1 && -1 <= dy <= 1 && IsSet(er, Shift(0, dx), Shift(p.y, dy));
      assert IsSet(er, Shift(p.x, dx - 1), Shift(p.y, dy));
    }
    if p.y == 1 && Point(p.x, 0) in Open(e, w, h) {
      var dx, dy :| -1 <= dx <= 1 && -1 <= dy <= 1 && IsSet(er, Shift(p.x, dx), Shift(0, dy));
      assert IsSet(er, Shift(p.x, dx), Shift(p.y, dy - 1));
    }
  }

  /** `eroded - opened` keeps the closure of the eroded image. */
  lemma ThinBorderClosed(e: Grid, w: nat, h: nat)
    requires Fits(e, w, h) && BorderClosed(e)
    ensures BorderClosed(Thin(e, w, h))
  {
    forall p | p in Thin(e, w, h)
      ensures p.x == 1 ==> Point(0, p.y) in Thin(e, w, h)
      ensures p.y == 1 ==> Point(p.x, 0) in Thin(e, w, h)
    {
      OpenReachesInward(e, w, h, p);
    }
  }

  /** One pass keeps the accumulator closed towards the left and top border. */
  lemma PassBorderClosed(acc: Grid, img: Grid, w: nat, h: nat)
    ensures BorderClosed(acc) ==> BorderClosed(acc + Thin(Erode(img, w, h), w, h))
  {
    ErodeBorderClosed(img, w, h);
    ThinBorderClosed(Erode(img, w, h), w, h);
  }

  /** The accumulator after any number of passes is closed towards the left and top border. */
  lemma {:induction false} SkeletonBorderClosed(mask: Grid, w: nat, h: nat, k: nat)
    ensures BorderClosed(SkeletonUpTo(mask, w, h, k))
  {
    if k > 0 {
      SkeletonBorderClosed(mask, w, h, k - 1);
      PassBorderClosed(SkeletonUpTo(mask, w, h, k - 1), ErodeN(mask, w, h, k - 1), w, h);
    }
  }

  /** A mask other than the full image leaves some pixel unset. */
  lemma SomeUnsetPixel(mask: Grid, w: nat, h: nat) returns (q: Point)
    requires Fits(mask, w, h) && mask != Cells(w, h)
    ensures InBounds(q.x, q.y, w, h) && q !in mask
  {
    q :| q in Cells(w, h) && q !in mask;
  }

  /** `_create_skeleton`: erode, open the eroded image, OR `eroded - opened` into the
      accumulator, continue with the eroded image, and stop once it has no set pixel.
      The source never returns for a mask whose every pixel is set (see FullMaskIsFixedPoint),
      and OpenCV rejects an empty image. */
  method CreateSkeleton(mask: Grid, w: nat, h: nat) returns (skeleton: Grid)
    requires Fits(mask, w, h) && w > 0 && h > 0 && mask != Cells(w, h)
    ensures Fits(skeleton, w, h)
    ensures skeleton <= mask && BorderClosed(skeleton)
    ensures exists n :: StopsAfter(mask, w, h, n) && skeleton == SkeletonUpTo(mask, w, h, n)
  {
    ghost var q := SomeUnsetPixel(mask, w, h);
    skeleton := {};
    var img := mask;
    var k: nat := 0;
    // the source's `while True` that breaks after a pass leaving no set pixel: `k` counts passes
    while k == 0 || |img| != 0
      invariant k <= 1 || ErodeN(mask, w, h, k - 1) != {}
      invariant img == ErodeN(mask, w, h, k)
      invariant skeleton == SkeletonUpTo(mask, w, h, k)
      invariant k <= w + h
      decreases w + h - k
    {
      if k > 0 {
        PassBound(mask, w, h, q, k);
      }
      var eroded := Erode(img, w, h);
      var opening := Open(eroded, w, h);
      SkeletonStep(mask, w, h, k, img, skeleton);
      skeleton := skeleton + (eroded - opening);
      img := eroded;
      k := k + 1;
    }
    StopsAfterLastPass(mask, w, h, k);
    SkeletonWithinMask(mask, w, h, k);
    SkeletonBorderClosed(mask, w, h, k);
  }
}
