/** Endpoint detection on the skeleton: a skeleton pixel with exactly one set 8-neighbour. */
module Endpoints {
  import opened Grids

  /** The 3x3 window centred on `p`, in row-major order. Pixels outside the image are
      never set, so counting set pixels over it is counting over the window clipped at
      the image border. */
  function Window(p: Point): (win: seq<Point>)
    ensures |win| == 9 && win[4] == p
  {
    [Point(p.x - 1, p.y - 1), Point(p.x, p.y - 1), Point(p.x + 1, p.y - 1),
     Point(p.x - 1, p.y),     Point(p.x, p.y),     Point(p.x + 1, p.y),
     Point(p.x - 1, p.y + 1), Point(p.x, p.y + 1), Point(p.x + 1, p.y + 1)]
  }

  /** The number of set pixels among `s`. */
  function CountSet(g: Grid, s: seq<Point>): nat {
    if s == [] then 0 else CountSet(g, s[..|s| - 1]) + (if s[|s| - 1] in g then 1 else 0)
  }

  /** `np.sum(neighborhood > 0)` over the clipped 3x3 window of `p`. */
  function WindowCount(g: Grid, p: Point): nat {
    CountSet(g, Window(p))
  }

  /** A set skeleton pixel whose clipped window holds exactly two set pixels: itself and one more. */
  predicate IsEndpoint(g: Grid, p: Point) {
    p in g && WindowCount(g, p) == 2
  }

  /** The set 8-neighbours of `p` (`p` itself excluded). */
  function Neighbours(g: Grid, p: Point): set<Point> {
    set q | q in g && q != p && Chebyshev(q, p) <= 1
  }

  /** Counting over a sequence of distinct points is the size of the set of its set points. */
  lemma {:induction false} CountSetIsCardinality(g: Grid, s: seq<Point>)
    requires Distinct(s)
    ensures CountSet(g, s) == |set q | q in s && q in g|
  {
    if s != [] {
      var init, last := s[..|s| - 1], s[|s| - 1];
      CountSetIsCardinality(g, init);
      var a := set q | q in init && q in g;
      assert last !in init;
      if last in g {
        assert (set q | q in s && q in g) == a + {last};
      } else {
        assert (set q | q in s && q in g) == a;
      }
    }
  }

  /** The window is exactly the points within Chebyshev distance 1. */
  lemma WindowIsChebyshevBall(p: Point, q: Point)
    ensures q in Window(p) <==> Chebyshev(q, p) <= 1
  {
    if Chebyshev(q, p) <= 1 {
      var dx, dy := q.x - p.x, q.y - p.y;
      assert -1 <= dx <= 1 && -1 <= dy <= 1;
      assert q == Window(p)[3 * (dy + 1) + (dx + 1)];
    }
  }

  /** The set pixels of the window are the pixel itself, when set, and its set 8-neighbours. */
  lemma WindowSetIsNeighbours(g: Grid, p: Point)
    ensures (set q | q in Window(p) && q in g) == Neighbours(g, p) + (if p in g then {p} else {})
  {
    forall q ensures q in Window(p) <==> Chebyshev(q, p) <= 1 {
      WindowIsChebyshevBall(p, q);
    }
  }

  /** The window count is the pixel itself plus its set 8-neighbours. */
  lemma WindowCountIsNeighbours(g: Grid, p: Point)
    ensures WindowCount(g, p) == (if p in g then 1 else 0) + |Neighbours(g, p)|
  {
    assert Distinct(Window(p));
    CountSetIsCardinality(g, Window(p));
    WindowSetIsNeighbours(g, p);
    assert p !in Neighbours(g, p);
  }

  /** An endpoint is exactly a set pixel with a single set 8-neighbour. */
  lemma EndpointHasOneNeighbour(g: Grid, p: Point)
    ensures IsEndpoint(g, p) <==> p in g && |Neighbours(g, p)| == 1
  {
    WindowCountIsNeighbours(g, p);
  }

  /** The endpoints (x, y) of row `y` with `x < n`, left to right. */
  function RowEndpoints(g: Grid, y: int, n: nat): seq<Point> {
    if n == 0 then []
    else RowEndpoints(g, y, n - 1) + (if IsEndpoint(g, Point(n - 1, y)) then [Point(n - 1, y)] else [])
  }

  /** The endpoints of the first `m` rows of a `w`-column image, in row-major order. */
  function ScanEndpoints(g: Grid, w: nat, m: nat): seq<Point> {
    if m == 0 then [] else ScanEndpoints(g, w, m - 1) + RowEndpoints(g, m - 1, w)
  }

  lemma {:induction false} RowEndpointsMembers(g: Grid, y: int, n: nat)
    ensures forall p {:trigger p in RowEndpoints(g, y, n)} :: p in RowEndpoints(g, y, n) <==> IsEndpoint(g, p) && p.y == y && 0 <= p.x < n
    decreases n
  {
    if n > 0 {
      RowEndpointsMembers(g, y, n - 1);
    }
  }

  lemma {:induction false} RowEndpointsSorted(g: Grid, y: int, n: nat)
    ensures forall p {:trigger p in RowEndpoints(g, y, n)} :: p in RowEndpoints(g, y, n) ==> p.y == y && 0 <= p.x < n
    ensures RowMajorSorted(RowEndpoints(g, y, n))
    decreases n
  {
    if n > 0 {
      RowEndpointsSorted(g, y, n - 1);
      var prev, p := RowEndpoints(g, y, n - 1), Point(n - 1, y);
      if IsEndpoint(g, p) {
        forall i, j | 0 <= i < |prev| && 0 <= j < |[p]| ensures Before(prev[i], [p][j]) {
          assert prev[i] in prev;
        }
        SortedConcat(prev, [p]);
      } else {
        assert RowEndpoints(g, y, n) == prev;
      }
    }
  }

  lemma {:induction false} ScanEndpointsSpec(g: Grid, w: nat, m: nat)
    ensures forall p :: p in ScanEndpoints(g, w, m) <==> IsEndpoint(g, p) && 0 <= p.x < w && 0 <= p.y < m
    ensures RowMajorSorted(ScanEndpoints(g, w, m))
  {
    ScanEndpointsMembers(g, w, m);
    ScanEndpointsSorted(g, w, m);
  }

  lemma {:induction false} ScanEndpointsMembers(g: Grid, w: nat, m: nat)
    ensures forall p {:trigger p in ScanEndpoints(g, w, m)} :: p in ScanEndpoints(g, w, m) <==> IsEndpoint(g, p) && 0 <= p.x < w && 0 <= p.y < m
    decreases m
  {
    if m > 0 {
      var a, b := ScanEndpoints(g, w, m - 1), RowEndpoints(g, m - 1, w);
      ScanEndpointsMembers(g, w, m - 1);
      RowEndpointsMembers(g, m - 1, w);
      assert ScanEndpoints(g, w, m) == a + b;
    }
  }

  lemma {:induction false} ScanEndpointsSorted(g: Grid, w: nat, m: nat)
    ensures forall p {:trigger p in ScanEndpoints(g, w, m)} :: p in ScanEndpoints(g, w, m) ==> 0 <= p.y < m
    ensures RowMajorSorted(ScanEndpoints(g, w, m))
    decreases m
  {
    if m > 0 {
      ScanEndpointsSorted(g, w, m - 1);
      RowEndpointsSorted(g, m - 1, w);
      SortedRows(ScanEndpoints(g, w, m - 1), RowEndpoints(g, m - 1, w), m - 1);
    }
  }

  /** A straight horizontal segment of two or more pixels has exactly its two ends as endpoints. */
  lemma SegmentEndpoints(y: int, x0: int, x1: int, p: Point)
    requires x0 < x1
    ensures IsEndpoint(Segment(y, x0, x1), p) <==> p == Point(x0, y) || p == Point(x1, y)
  {
    var g := Segment(y, x0, x1);
    EndpointHasOneNeighbour(g, p);
    if p in g {
      if p.x == x0 {
        assert Neighbours(g, p) == {Point(x0 + 1, y)};
      } else if p.x == x1 {
        assert Neighbours(g, p) == {Point(x1 - 1, y)};
      } else {
        assert Point(p.x - 1, y) in Neighbours(g, p) && Point(p.x + 1, y) in Neighbours(g, p);
        assert {Point(p.x - 1, y), Point(p.x + 1, y)} <= Neighbours(g, p);
        assert |{Point(p.x - 1, y), Point(p.x + 1, y)}| == 2;
        SubsetCard({Point(p.x - 1, y), Point(p.x + 1, y)}, Neighbours(g, p));
      }
    }
  }

  /** The pixels (x, y) with x0 <= x <= x1. */
  function Segment(y: int, x0: int, x1: int): Grid {
    set x | x0 <= x <= x1 :: Point(x, y)
  }

  /** `_find_endpoints`: scan the skeleton pixels row by row, left to right, keeping those
      whose clipped 3x3 window holds exactly two set pixels. */
  method FindEndpoints(skel: Grid, w: nat, h: nat) returns (endpoints: seq<Point>)
    requires Fits(skel, w, h)
    ensures endpoints == ScanEndpoints(skel, w, h)
    ensures forall p :: p in endpoints <==> IsEndpoint(skel, p)
    ensures RowMajorSorted(endpoints)
  {
    endpoints := [];
    for y := 0 to h
      invariant endpoints == ScanEndpoints(skel, w, y)
    {
      for x := 0 to w
        invariant endpoints == ScanEndpoints(skel, w, y) + RowEndpoints(skel, y, x)
      {
        if IsSet(skel, x, y) && WindowCount(skel, Point(x, y)) == 2 {
          ConcatAssoc(ScanEndpoints(skel, w, y), RowEndpoints(skel, y, x), [Point(x, y)]);
          endpoints := endpoints + [Point(x, y)];
        }
      }
    }
    ScanEndpointsSpec(skel, w, h);
  }
}
