/** Snapping the start point to the road: a brute-force search over the skeleton pixels
    for the one closest to a query point. */
module Nearest {
  import opened Grids

  /** Squared Euclidean distance. The square root the search compares is strictly
      increasing, so comparing squared distances picks the same pixel. */
  function Dist2(p: Point, q: Point): nat {
    (p.x - q.x) * (p.x - q.x) + (p.y - q.y) * (p.y - q.y)
  }

  /** The skeleton pixels scanned before the scan reaches `c` (`np.where` lists the set
      pixels row by row, left to right). */
  function Scanned(skel: Grid, c: Point): set<Point> {
    set q | q in skel && Before(q, c)
  }

  /** The state of the search after scanning every pixel before `c`: `found` says whether a
      pixel has been seen (the source's `min_dist` is no longer infinite); if so `nearest`
      is a scanned pixel at minimal distance and every pixel scanned before it is strictly
      farther; if not, `nearest` is still the query point. */
  ghost predicate SearchState(skel: Grid, point: Point, c: Point, found: bool, nearest: Point) {
    (found <==> Scanned(skel, c) != {})
    && (!found ==> nearest == point)
    && (found ==>
          nearest in Scanned(skel, c)
          && forall q :: q in Scanned(skel, c) ==>
               Dist2(nearest, point) <= Dist2(q, point)
               && (Before(q, nearest) ==> Dist2(nearest, point) < Dist2(q, point)))
  }

  /** One pixel scanned: it replaces the current best exactly when it is set and strictly
      closer (or nothing has been found yet). */
  lemma ScanStep(skel: Grid, point: Point, c: Point, found: bool, nearest: Point, found': bool, nearest': Point)
    requires SearchState(skel, point, c, found, nearest)
    requires var better := c in skel && (!found || Dist2(c, point) < Dist2(nearest, point));
      (better ==> found' && nearest' == c) && (!better ==> found' == found && nearest' == nearest)
    ensures SearchState(skel, point, Point(c.x + 1, c.y), found', nearest')
  {
    var c' := Point(c.x + 1, c.y);
    assert Scanned(skel, c') == Scanned(skel, c) + (if c in skel then {c} else {});
    if c in skel && found && Dist2(c, point) < Dist2(nearest, point) {
      forall q | q in Scanned(skel, c')
        ensures Dist2(c, point) <= Dist2(q, point)
        ensures Before(q, c) ==> Dist2(c, point) < Dist2(q, point)
      {
        if q != c {
          assert q in Scanned(skel, c);
        }
      }
    }
  }

  /** Past the last column of a row the scan continues at the start of the next row. */
  lemma RowDone(skel: Grid, w: nat, h: nat, point: Point, y: int, found: bool, nearest: Point)
    requires Fits(skel, w, h)
    requires SearchState(skel, point, Point(w, y), found, nearest)
    ensures SearchState(skel, point, Point(0, y + 1), found, nearest)
  {
    assert Scanned(skel, Point(w, y)) == Scanned(skel, Point(0, y + 1));
  }

  /** After the last row every skeleton pixel has been scanned. */
  lemma ScanDone(skel: Grid, w: nat, h: nat)
    requires Fits(skel, w, h)
    ensures Scanned(skel, Point(0, h)) == skel
  {
  }

  /** `nearest` is the first skeleton pixel, in scan order, at minimal distance from
      `point`, or `point` itself when the skeleton is empty. */
  predicate IsNearest(skel: Grid, point: Point, nearest: Point) {
    (skel == {} ==> nearest == point)
    && (skel != {} ==> nearest in skel)
    && (forall q :: q in skel ==> Dist2(nearest, point) <= Dist2(q, point))
    && (forall q :: q in skel && Before(q, nearest) ==> Dist2(nearest, point) < Dist2(q, point))
  }

  /** The snapped point is determined by the skeleton and the query point: ties are broken
      by scan order. */
  lemma NearestUnique(skel: Grid, point: Point, a: Point, b: Point)
    requires IsNearest(skel, point, a) && IsNearest(skel, point, b)
    ensures a == b
  {
  }

  /** `_find_nearest_road_point`: a scan of the whole image keeping the closest set pixel
      seen so far; a later pixel replaces it only when strictly closer. */
  method FindNearestRoadPoint(skel: Grid, w: nat, h: nat, point: Point) returns (nearest: Point)
    requires Fits(skel, w, h)
    ensures skel == {} ==> nearest == point
    ensures skel != {} ==> nearest in skel
    ensures forall q :: q in skel ==> Dist2(nearest, point) <= Dist2(q, point)
    ensures forall q :: q in skel && Before(q, nearest) ==> Dist2(nearest, point) < Dist2(q, point)
  {
    var found := false;
    var minDist := 0;
    nearest := point;
    for y := 0 to h
      invariant SearchState(skel, point, Point(0, y), found, nearest)
      invariant found ==> minDist == Dist2(nearest, point)
    {
      for x := 0 to w
        invariant SearchState(skel, point, Point(x, y), found, nearest)
        invariant found ==> minDist == Dist2(nearest, point)
      {
        ghost var found0, nearest0 := found, nearest;
        if IsSet(skel, x, y) {
          var dist := Dist2(Point(x, y), point);
          if !found || dist < minDist {
            found, minDist, nearest := true, dist, Point(x, y);
          }
        }
        ScanStep(skel, point, Point(x, y), found0, nearest0, found, nearest);
      }
      RowDone(skel, w, h, point, y, found, nearest);
    }
    ScanDone(skel, w, h);
  }
}
