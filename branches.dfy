/** Branch tracing: a greedy walk over the skeleton from every endpoint not yet visited,
    with one `visited` image shared by all walks. */
module Branches {
  import opened Grids

  /** The first row (or column) of the 3x3 window around coordinate `c`, clipped at the
      image border: `max(0, c - 1)`. */
  function Lo(c: int): int {
    if c - 1 < 0 then 0 else c - 1
  }

  /** One past the last row (or column) of the clipped window: `min(n, c + 2)`. */
  function Hi(c: int, n: nat): int {
    if n < c + 2 then n else c + 2
  }

  /** The window cell that the walk reports as point `q` offers it as a candidate. The cell
      for `q` is (nx, ny) = (q.x - x + 1, q.y - y + 1) in window coordinates; it shows the
      skeleton pixel (Lo(x) + nx, Lo(y) + ny), which must be set, while `q` itself must be
      inside the image and not visited. Pixel and point coincide except when the window is
      clipped at the left or top border. */
  predicate OpenAt(skel: Grid, w: nat, h: nat, seen: set<Point>, cur: Point, q: Point) {
    IsSet(skel, Lo(cur.x) + q.x - cur.x + 1, Lo(cur.y) + q.y - cur.y + 1)
    && InBounds(q.x, q.y, w, h)
    && q !in seen
  }

  /** The candidates of window row `ny` among its first `n` cells, left to right. */
  function RowOpen(skel: Grid, w: nat, h: nat, seen: set<Point>, cur: Point, ny: int, n: int): seq<Point>
    decreases n
  {
    if n <= 0 then []
    else
      var q := Point(cur.x + n - 2, cur.y + ny - 1);
      RowOpen(skel, w, h, seen, cur, ny, n - 1) + (if OpenAt(skel, w, h, seen, cur, q) then [q] else [])
  }

  /** The candidates of the first `m` window rows, in row-major order. */
  function WindowOpen(skel: Grid, w: nat, h: nat, seen: set<Point>, cur: Point, m: int): seq<Point>
    decreases m
  {
    if m <= 0 then []
    else WindowOpen(skel, w, h, seen, cur, m - 1) + RowOpen(skel, w, h, seen, cur, m - 1, Hi(cur.x, w) - Lo(cur.x))
  }

  /** The list `next_points` that the walk builds at `cur`. */
  function Candidates(skel: Grid, w: nat, h: nat, seen: set<Point>, cur: Point): seq<Point> {
    WindowOpen(skel, w, h, seen, cur, Hi(cur.y, h) - Lo(cur.y))
  }

  /** The point the walk moves to from `cur`: the first candidate, if any. */
  function FirstOpen(skel: Grid, w: nat, h: nat, seen: set<Point>, cur: Point): Option<Point> {
    var c := Candidates(skel, w, h, seen, cur);
    if c == [] then None else Some(c[0])
  }

  /** `q` is offered by one of the first `m` rows of the clipped window around `cur`. */
  predicate OpenWithin(skel: Grid, w: nat, h: nat, seen: set<Point>, cur: Point, m: int, q: Point) {
    0 <= q.y - cur.y + 1 < m && 0 <= q.x - cur.x + 1 < Hi(cur.x, w) - Lo(cur.x)
    && OpenAt(skel, w, h, seen, cur, q)
  }

  /** A point is a candidate at `cur` exactly when it lies in the clipped window (shifted as
      the source computes it) and its window cell offers it. */
  predicate Qualifies(skel: Grid, w: nat, h: nat, seen: set<Point>, cur: Point, q: Point) {
    OpenWithin(skel, w, h, seen, cur, Hi(cur.y, h) - Lo(cur.y), q)
  }

  lemma {:induction false} RowOpenMembers(skel: Grid, w: nat, h: nat, seen: set<Point>, cur: Point, ny: int, n: int)
    ensures forall q :: q in RowOpen(skel, w, h, seen, cur, ny, n) <==>
      q.y == cur.y + ny - 1 && 0 <= q.x - cur.x + 1 < n && OpenAt(skel, w, h, seen, cur, q)
  {
    if n > 0 {
      RowOpenMembers(skel, w, h, seen, cur, ny, n - 1);
      var a := RowOpen(skel, w, h, seen, cur, ny, n - 1);
      var last := Point(cur.x + n - 2, cur.y + ny - 1);
      var b := if OpenAt(skel, w, h, seen, cur, last) then [last] else [];
      assert RowOpen(skel, w, h, seen, cur, ny, n) == a + b;
      forall q: Point ensures q in a + b <==>
        q.y == cur.y + ny - 1 && 0 <= q.x - cur.x + 1 < n && OpenAt(skel, w, h, seen, cur, q)
      {
        assert q in a + b <==> q in a || q in b;
      }
    }
  }

  lemma {:induction false} RowOpenSorted(skel: Grid, w: nat, h: nat, seen: set<Point>, cur: Point, ny: int, n: int)
    ensures RowMajorSorted(RowOpen(skel, w, h, seen, cur, ny, n))
  {
    if n > 0 {
      RowOpenSorted(skel, w, h, seen, cur, ny, n - 1);
      RowOpenMembers(skel, w, h, seen, cur, ny, n - 1);
      var a := RowOpen(skel, w, h, seen, cur, ny, n - 1);
      var last := Point(cur.x + n - 2, cur.y + ny - 1);
      var b := if OpenAt(skel, w, h, seen, cur, last) then [last] else [];
      forall i, j | 0 <= i < |a| && 0 <= j < |b| ensures Before(a[i], b[j]) {
        assert a[i] in a;
      }
      SortedConcat(a, b);
    }
  }

  lemma {:induction false} WindowOpenMembers(skel: Grid, w: nat, h: nat, seen: set<Point>, cur: Point, m: int)
    ensures forall q :: q in WindowOpen(skel, w, h, seen, cur, m) <==> OpenWithin(skel, w, h, seen, cur, m, q)
  {
    if m > 0 {
      WindowOpenMembers(skel, w, h, seen, cur, m - 1);
      var a, b := WindowOpen(skel, w, h, seen, cur, m - 1), RowOpen(skel, w, h, seen, cur, m - 1, Hi(cur.x, w) - Lo(cur.x));
      RowOpenMembers(skel, w, h, seen, cur, m - 1, Hi(cur.x, w) - Lo(cur.x));
      assert WindowOpen(skel, w, h, seen, cur, m) == a + b;
      forall q: Point ensures q in a + b <==> OpenWithin(skel, w, h, seen, cur, m, q) {
        if q.y - cur.y + 1 == m - 1 {
          assert q !in a;
          assert q in b <==> OpenWithin(skel, w, h, seen, cur, m, q);
        } else {
          assert q !in b;
          assert q in a <==> OpenWithin(skel, w, h, seen, cur, m, q);
        }
      }
    }
  }

  lemma {:induction false} WindowOpenSorted(skel: Grid, w: nat, h: nat, seen: set<Point>, cur: Point, m: int)
    ensures RowMajorSorted(WindowOpen(skel, w, h, seen, cur, m))
  {
    if m > 0 {
      WindowOpenSorted(skel, w, h, seen, cur, m - 1);
      WindowOpenMembers(skel, w, h, seen, cur, m - 1);
      var a, b := WindowOpen(skel, w, h, seen, cur, m - 1), RowOpen(skel, w, h, seen, cur, m - 1, Hi(cur.x, w) - Lo(cur.x));
      RowOpenMembers(skel, w, h, seen, cur, m - 1, Hi(cur.x, w) - Lo(cur.x));
      RowOpenSorted(skel, w, h, seen, cur, m - 1, Hi(cur.x, w) - Lo(cur.x));
      SortedRows(a, b, cur.y + m - 2);
    }
  }

  /** The candidate list holds exactly the qualifying points, in row-major order. */
  lemma CandidatesSpec(skel: Grid, w: nat, h: nat, seen: set<Point>, cur: Point)
    ensures forall q :: q in Candidates(skel, w, h, seen, cur) <==> Qualifies(skel, w, h, seen, cur, q)
    ensures RowMajorSorted(Candidates(skel, w, h, seen, cur))
  {
    WindowOpenMembers(skel, w, h, seen, cur, Hi(cur.y, h) - Lo(cur.y));
    WindowOpenSorted(skel, w, h, seen, cur, Hi(cur.y, h) - Lo(cur.y));
  }

  /** The walk moves to the row-major least qualifying point, and stops exactly when no
      point qualifies. */
  lemma FirstOpenSpec(skel: Grid, w: nat, h: nat, seen: set<Point>, cur: Point)
    ensures FirstOpen(skel, w, h, seen, cur) == None <==> forall q :: !Qualifies(skel, w, h, seen, cur, q)
    ensures FirstOpen(skel, w, h, seen, cur).Some? ==>
      var q := FirstOpen(skel, w, h, seen, cur).value;
      Qualifies(skel, w, h, seen, cur, q)
      && forall q' :: Qualifies(skel, w, h, seen, cur, q') ==> q' == q || Before(q, q')
  {
    CandidatesSpec(skel, w, h, seen, cur);
    var c := Candidates(skel, w, h, seen, cur);
    if c != [] {
      assert c[0] in c;
      assert Qualifies(skel, w, h, seen, cur, c[0]);
      forall q' | Qualifies(skel, w, h, seen, cur, q') ensures q' == c[0] || Before(c[0], q') {
        var k :| 0 <= k < |c| && c[k] == q';
      }
    } else {
      forall q ensures !Qualifies(skel, w, h, seen, cur, q) {
        assert q !in c;
      }
    }
  }

  /** A candidate is an in-bounds, unvisited point within one 8-connected step of `cur`. */
  lemma QualifiesNear(skel: Grid, w: nat, h: nat, seen: set<Point>, cur: Point, q: Point)
    requires InBounds(cur.x, cur.y, w, h)
    requires Qualifies(skel, w, h, seen, cur, q)
    ensures InBounds(q.x, q.y, w, h) && q !in seen && Chebyshev(q, cur) <= 1
  {
  }

  /** Away from the left and top border the window is not clipped on that side, and the
      candidates are exactly the unvisited set skeleton pixels around `cur`. */
  lemma QualifiesAwayFromBorder(skel: Grid, w: nat, h: nat, seen: set<Point>, cur: Point, q: Point)
    requires Fits(skel, w, h) && InBounds(cur.x, cur.y, w, h) && cur.x >= 1 && cur.y >= 1
    ensures Qualifies(skel, w, h, seen, cur, q) <==> q in skel && q !in seen && Chebyshev(q, cur) <= 1
  {
  }

  /** In general the pixel the source inspects for a candidate lies one column to the right
      of it when `cur` is in the first column, and one row below it when `cur` is in the
      first row: the candidate itself need not be a skeleton pixel. */
  lemma QualifiesInspects(skel: Grid, w: nat, h: nat, seen: set<Point>, cur: Point, q: Point)
    requires InBounds(cur.x, cur.y, w, h)
    requires Qualifies(skel, w, h, seen, cur, q)
    ensures Point(q.x + (if cur.x == 0 then 1 else 0), q.y + (if cur.y == 0 then 1 else 0)) in skel
  {
  }

  /** From the first column the walk never leaves that column, and from the first row it
      never leaves that row: the clipped window reaches one step right (or down) only, and the
      shifted coordinate takes that step back. */
  lemma QualifiesStaysOnBorder(skel: Grid, w: nat, h: nat, seen: set<Point>, cur: Point, q: Point)
    requires InBounds(cur.x, cur.y, w, h)
    requires Qualifies(skel, w, h, seen, cur, q)
    ensures cur.x == 0 ==> q.x == 0
    ensures cur.y == 0 ==> q.y == 0
  {
  }

  /** On a skeleton closed towards the left and top border every candidate is itself a
      skeleton pixel: the pixel inspected for it lies one column right or one row down, and
      closure carries it back onto the candidate. */
  lemma QualifiesOnSkeleton(skel: Grid, w: nat, h: nat, seen: set<Point>, cur: Point, q: Point)
    requires BorderClosed(skel) && InBounds(cur.x, cur.y, w, h)
    requires Qualifies(skel, w, h, seen, cur, q)
    ensures q in skel
  {
    QualifiesInspects(skel, w, h, seen, cur, q);
    QualifiesStaysOnBorder(skel, w, h, seen, cur, q);
    if cur.x == 0 && cur.y == 0 {
      assert Point(1, 1) in skel && Point(0, 1) in skel;
    } else if cur.x == 0 {
      assert Point(1, q.y) in skel;
    } else if cur.y == 0 {
      assert Point(q.x, 1) in skel;
    }
  }

  /** `visited` (indexed [y, x], as the source's `visited[y, x]`) marks exactly the points of `seen`. */
  ghost predicate Mirrors(visited: array2<bool>, seen: set<Point>, w: nat, h: nat)
    reads visited
  {
    visited.Length0 == h && visited.Length1 == w
    && forall y, x :: 0 <= y < h && 0 <= x < w ==> (visited[y, x] <==> Point(x, y) in seen)
  }

  /** What the walk tests for window cell (ny, nx) of the window whose top-left pixel is
      (c0, r0), read through the `visited` array. */
  lemma OpenAtMirrored(skel: Grid, w: nat, h: nat, visited: array2<bool>, seen: set<Point>, cur: Point,
                       c0: int, r0: int, ny: int, nx: int)
    requires Mirrors(visited, seen, w, h) && c0 == Lo(cur.x) && r0 == Lo(cur.y)
    ensures Lo(cur.x) + (cur.x + nx - 1) - cur.x + 1 == c0 + nx
    ensures Lo(cur.y) + (cur.y + ny - 1) - cur.y + 1 == r0 + ny
    ensures OpenAt(skel, w, h, seen, cur, Point(cur.x + nx - 1, cur.y + ny - 1)) <==>
      IsSet(skel, c0 + nx, r0 + ny)
      && 0 <= cur.x + nx - 1 < w && 0 <= cur.y + ny - 1 < h
      && !visited[cur.y + ny - 1, cur.x + nx - 1]
  {
  }

  /** One window cell scanned: the list grows by the cell's candidate, if it offers one. */
  lemma RowOpenStep(skel: Grid, w: nat, h: nat, seen: set<Point>, cur: Point, ny: int, nx: nat,
                    rows: seq<Point>, before: seq<Point>, after: seq<Point>)
    requires before == rows + RowOpen(skel, w, h, seen, cur, ny, nx)
    requires var q := Point(cur.x + nx - 1, cur.y + ny - 1);
      after == before + (if OpenAt(skel, w, h, seen, cur, q) then [q] else [])
    ensures after == rows + RowOpen(skel, w, h, seen, cur, ny, nx + 1)
  {
  }

  /** One row `ny` of the clipped window at `current`: append its candidates, left to right. */
  method ScanRow(skel: Grid, w: nat, h: nat, visited: array2<bool>, ghost seen: set<Point>, current: Point,
                 ny: int, points: seq<Point>)
    returns (nextPoints: seq<Point>)
    requires InBounds(current.x, current.y, w, h) && Mirrors(visited, seen, w, h)
    ensures nextPoints == points + RowOpen(skel, w, h, seen, current, ny, Hi(current.x, w) - Lo(current.x))
  {
    var y, x := current.y, current.x;
    var r0, c0 := Lo(y), Lo(x);
    var cols := Hi(x, w) - c0;
    nextPoints := points;
    for nx := 0 to cols
      invariant nextPoints == points + RowOpen(skel, w, h, seen, current, ny, nx)
    {
      ghost var before := nextPoints;
      OpenAtMirrored(skel, w, h, visited, seen, current, c0, r0, ny, nx);
      if IsSet(skel, c0 + nx, r0 + ny) {
        var globalX, globalY := x + nx - 1, y + ny - 1;
        if 0 <= globalX < w && 0 <= globalY < h && !visited[globalY, globalX] {
          nextPoints := nextPoints + [Point(globalX, globalY)];
        }
      }
      RowOpenStep(skel, w, h, seen, current, ny, nx, points, before, nextPoints);
    }
  }

  /** One step of the walk at `current` (the body of the source's inner `while True`, after
      marking): collect `next_points` over the clipped window and take the first. */
  method NextPoint(skel: Grid, w: nat, h: nat, visited: array2<bool>, ghost seen: set<Point>, current: Point)
    returns (next: Option<Point>)
    requires InBounds(current.x, current.y, w, h) && Mirrors(visited, seen, w, h)
    ensures next == FirstOpen(skel, w, h, seen, current)
  {
    var rows := Hi(current.y, h) - Lo(current.y);
    var nextPoints: seq<Point> := [];
    for ny := 0 to rows
      invariant nextPoints == WindowOpen(skel, w, h, seen, current, ny)
    {
      nextPoints := ScanRow(skel, w, h, visited, seen, current, ny, nextPoints);
    }
    if nextPoints == [] {
      next := None;
    } else {
      next := Some(nextPoints[0]);
    }
  }

  /** The pixels not visited yet. */
  function Unvisited(w: nat, h: nat, seen: set<Point>): set<Point> {
    Cells(w, h) - seen
  }

  /** Visiting an unvisited pixel leaves one fewer unvisited pixel. */
  lemma VisitShrinks(w: nat, h: nat, seen: set<Point>, cur: Point)
    requires InBounds(cur.x, cur.y, w, h) && cur !in seen
    ensures |Unvisited(w, h, seen + {cur})| == |Unvisited(w, h, seen)| - 1
  {
    assert Unvisited(w, h, seen) == Unvisited(w, h, seen + {cur}) + {cur};
  }

  /** One walk of the source's inner `while True` from `cur`, with `seen` the pixels visited
      before it: the branch it appends and the visited pixels afterwards. */
  ghost function Walk(skel: Grid, w: nat, h: nat, seen: set<Point>, cur: Point): (r: (seq<Point>, set<Point>))
    requires Fits(seen, w, h) && InBounds(cur.x, cur.y, w, h) && cur !in seen
    ensures Fits(r.1, w, h) && seen <= r.1
    ensures |r.0| <= |Unvisited(w, h, seen)|
    decreases |Unvisited(w, h, seen)|
  {
    var seen' := seen + {cur};
    VisitShrinks(w, h, seen, cur);
    match FirstOpen(skel, w, h, seen', cur)
    case None => ([cur], seen')
    case Some(next) =>
      FirstOpenSpec(skel, w, h, seen', cur);
      var rest := Walk(skel, w, h, seen', next);
      ([cur] + rest.0, rest.1)
  }

  /** A walk visits each of its points once, so it has at most `w * h` points. */
  lemma WalkBound(skel: Grid, w: nat, h: nat, seen: set<Point>, cur: Point)
    requires Fits(seen, w, h) && InBounds(cur.x, cur.y, w, h) && cur !in seen
    ensures |Walk(skel, w, h, seen, cur).0| <= w * h
  {
    SubsetCard(Unvisited(w, h, seen), Cells(w, h));
    CellsSize(w, h);
  }

  /** The source's loop over the endpoints: walk from every endpoint not visited yet, keep
      the walks of at least `minLen` points, and carry the visited pixels along. */
  ghost function TraceAll(skel: Grid, w: nat, h: nat, eps: seq<Point>, minLen: int, seen: set<Point>)
    : (r: (seq<seq<Point>>, set<Point>))
    requires Fits(seen, w, h) && forall e :: e in eps ==> InBounds(e.x, e.y, w, h)
    ensures Fits(r.1, w, h) && seen <= r.1
    decreases |eps|
  {
    if eps == [] then ([], seen)
    else if eps[0] in seen then TraceAll(skel, w, h, eps[1..], minLen, seen)
    else
      var walk := Walk(skel, w, h, seen, eps[0]);
      var rest := TraceAll(skel, w, h, eps[1..], minLen, walk.1);
      ((if |walk.0| >= minLen then [walk.0] else []) + rest.0, rest.1)
  }

  /** A walk starts at `cur`. */
  lemma WalkStart(skel: Grid, w: nat, h: nat, seen: set<Point>, cur: Point)
    requires Fits(seen, w, h) && InBounds(cur.x, cur.y, w, h) && cur !in seen
    ensures var b := Walk(skel, w, h, seen, cur).0; |b| >= 1 && b[0] == cur
  {
  }

  /** After a walk the visited pixels are those visited before it together with its own
      points, none of which had been visited before. */
  lemma {:induction false} WalkVisits(skel: Grid, w: nat, h: nat, seen: set<Point>, cur: Point)
    requires Fits(seen, w, h) && InBounds(cur.x, cur.y, w, h) && cur !in seen
    ensures var r := Walk(skel, w, h, seen, cur); r.1 == seen + Elems(r.0) && Elems(r.0) !! seen
    decreases |Unvisited(w, h, seen)|
  {
    var seen' := seen + {cur};
    VisitShrinks(w, h, seen, cur);
    match FirstOpen(skel, w, h, seen', cur)
    case None =>
      ElemsCons(cur, []);
    case Some(next) =>
      FirstOpenSpec(skel, w, h, seen', cur);
      QualifiesNear(skel, w, h, seen', cur, next);
      WalkVisits(skel, w, h, seen', next);
      var rest := Walk(skel, w, h, seen', next);
      VisitsCons(seen, cur, rest.0, rest.1);
  }

  lemma VisitsCons(seen: set<Point>, cur: Point, rest: seq<Point>, after: set<Point>)
    requires cur !in seen && after == seen + {cur} + Elems(rest) && Elems(rest) !! (seen + {cur})
    ensures after == seen + Elems([cur] + rest) && Elems([cur] + rest) !! seen
  {
    ElemsCons(cur, rest);
  }

  /** A walk never passes the same point twice. */
  lemma {:induction false} WalkDistinct(skel: Grid, w: nat, h: nat, seen: set<Point>, cur: Point)
    requires Fits(seen, w, h) && InBounds(cur.x, cur.y, w, h) && cur !in seen
    ensures Distinct(Walk(skel, w, h, seen, cur).0)
    decreases |Unvisited(w, h, seen)|
  {
    var seen' := seen + {cur};
    VisitShrinks(w, h, seen, cur);
    match FirstOpen(skel, w, h, seen', cur)
    case None =>
    case Some(next) =>
      FirstOpenSpec(skel, w, h, seen', cur);
      QualifiesNear(skel, w, h, seen', cur, next);
      WalkDistinct(skel, w, h, seen', next);
      WalkVisits(skel, w, h, seen', next);
      DistinctCons(cur, Walk(skel, w, h, seen', next).0);
  }

  /** Consecutive points of a walk are one 8-connected step apart. */
  lemma {:induction false} WalkAdjacent(skel: Grid, w: nat, h: nat, seen: set<Point>, cur: Point)
    requires Fits(seen, w, h) && InBounds(cur.x, cur.y, w, h) && cur !in seen
    ensures Connected(Walk(skel, w, h, seen, cur).0)
    decreases |Unvisited(w, h, seen)|
  {
    var seen' := seen + {cur};
    VisitShrinks(w, h, seen, cur);
    match FirstOpen(skel, w, h, seen', cur)
    case None =>
    case Some(next) =>
      FirstOpenSpec(skel, w, h, seen', cur);
      QualifiesNear(skel, w, h, seen', cur, next);
      WalkAdjacent(skel, w, h, seen', next);
      WalkStart(skel, w, h, seen', next);
      ConnectedCons(cur, Walk(skel, w, h, seen', next).0);
  }

  /** A walk stops at a point where nothing qualifies any more, given the pixels visited by then. */
  lemma {:induction false} WalkStops(skel: Grid, w: nat, h: nat, seen: set<Point>, cur: Point)
    requires Fits(seen, w, h) && InBounds(cur.x, cur.y, w, h) && cur !in seen
    ensures var r := Walk(skel, w, h, seen, cur);
      |r.0| >= 1 && FirstOpen(skel, w, h, r.1, r.0[|r.0| - 1]) == None
    decreases |Unvisited(w, h, seen)|
  {
    var seen' := seen + {cur};
    VisitShrinks(w, h, seen, cur);
    match FirstOpen(skel, w, h, seen', cur)
    case None =>
    case Some(next) =>
      FirstOpenSpec(skel, w, h, seen', cur);
      QualifiesNear(skel, w, h, seen', cur, next);
      WalkStops(skel, w, h, seen', next);
  }

  /** Started on a skeleton pixel of a skeleton closed towards the left and top border, a
      walk only passes skeleton pixels. */
  lemma {:induction false} WalkOnSkeleton(skel: Grid, w: nat, h: nat, seen: set<Point>, cur: Point)
    requires Fits(seen, w, h) && InBounds(cur.x, cur.y, w, h) && cur !in seen
    requires BorderClosed(skel) && cur in skel
    ensures Elems(Walk(skel, w, h, seen, cur).0) <= skel
    decreases |Unvisited(w, h, seen)|
  {
    var seen' := seen + {cur};
    VisitShrinks(w, h, seen, cur);
    match FirstOpen(skel, w, h, seen', cur)
    case None =>
      ElemsCons(cur, []);
    case Some(next) =>
      FirstOpenSpec(skel, w, h, seen', cur);
      QualifiesNear(skel, w, h, seen', cur, next);
      QualifiesOnSkeleton(skel, w, h, seen', cur, next);
      WalkOnSkeleton(skel, w, h, seen', next);
      ElemsCons(cur, Walk(skel, w, h, seen', next).0);
  }

  /** A branch as the walk produces it: a nonempty path of distinct in-bounds points, each
      one 8-connected step from the next. */
  ghost predicate IsPath(b: seq<Point>, w: nat, h: nat) {
    |b| >= 1 && Distinct(b) && Connected(b) && Fits(Elems(b), w, h)
  }

  /** The whole walk from `cur` in one statement: a path from `cur` of unvisited pixels,
      all of them visited afterwards. */
  lemma WalkIsPath(skel: Grid, w: nat, h: nat, seen: set<Point>, cur: Point)
    requires Fits(seen, w, h) && InBounds(cur.x, cur.y, w, h) && cur !in seen
    ensures var r := Walk(skel, w, h, seen, cur);
      IsPath(r.0, w, h) && r.0[0] == cur && Elems(r.0) !! seen && r.1 == seen + Elems(r.0)
  {
    WalkStart(skel, w, h, seen, cur);
    WalkVisits(skel, w, h, seen, cur);
    WalkDistinct(skel, w, h, seen, cur);
    WalkAdjacent(skel, w, h, seen, cur);
  }

  /** What `_find_branches` promises of its result: every branch is a path of at least
      `minLen` points starting at one of the endpoints, and no pixel lies on two branches. */
  ghost predicate ValidBranches(bs: seq<seq<Point>>, eps: seq<Point>, minLen: int, w: nat, h: nat) {
    (forall k :: 0 <= k < |bs| ==> IsPath(bs[k], w, h) && |bs[k]| >= minLen && bs[k][0] in eps)
    && Disjoint(bs)
  }

  /** `b` is a branch of at least `minLen` points starting at an endpoint, made of pixels not
      visited in `before` and visited in `after`. */
  ghost predicate BranchFrom(b: seq<Point>, eps: seq<Point>, minLen: int, w: nat, h: nat,
                             before: set<Point>, after: set<Point>) {
    IsPath(b, w, h) && |b| >= minLen && b[0] in eps && Elems(b) !! before && Elems(b) <= after
  }

  ghost predicate AllBranchesFrom(bs: seq<seq<Point>>, eps: seq<Point>, minLen: int, w: nat, h: nat,
                                  before: set<Point>, after: set<Point>) {
    forall k :: 0 <= k < |bs| ==> BranchFrom(bs[k], eps, minLen, w, h, before, after)
  }

  /** One step of the trace for the per-branch facts: the branches of the remaining endpoints,
      possibly preceded by the current walk. */
  lemma BranchesCons(first: seq<Point>, keep: bool, rest: seq<seq<Point>>, eps: seq<Point>, minLen: int,
                     w: nat, h: nat, seen: set<Point>, mid: set<Point>, after: set<Point>)
    requires eps != [] && seen <= mid <= after
    requires keep ==> BranchFrom(first, eps, minLen, w, h, seen, mid)
    requires AllBranchesFrom(rest, eps[1..], minLen, w, h, mid, after)
    ensures AllBranchesFrom((if keep then [first] else []) + rest, eps, minLen, w, h, seen, after)
  {
    var bs := (if keep then [first] else []) + rest;
    forall k | 0 <= k < |bs| ensures BranchFrom(bs[k], eps, minLen, w, h, seen, after) {
      if keep && k == 0 {
        assert bs[k] == first;
      } else {
        var j := if keep then k - 1 else k;
        assert bs[k] == rest[j] && BranchFrom(rest[j], eps[1..], minLen, w, h, mid, after);
        assert rest[j][0] in eps[1..];
      }
    }
  }

  /** Every branch kept by the trace is a path of at least `minLen` points from an endpoint,
      made of pixels not visited before the trace and visited after it. */
  lemma {:induction false} TraceAllPaths(skel: Grid, w: nat, h: nat, eps: seq<Point>, minLen: int, seen: set<Point>)
    requires Fits(seen, w, h) && forall e :: e in eps ==> InBounds(e.x, e.y, w, h)
    ensures var r := TraceAll(skel, w, h, eps, minLen, seen);
      AllBranchesFrom(r.0, eps, minLen, w, h, seen, r.1)
    decreases |eps|
  {
    if eps != [] {
      if eps[0] in seen {
        TraceAllPaths(skel, w, h, eps[1..], minLen, seen);
        BranchesCons([], false, TraceAll(skel, w, h, eps[1..], minLen, seen).0, eps, minLen, w, h,
                     seen, seen, TraceAll(skel, w, h, eps[1..], minLen, seen).1);
      } else {
        var walk := Walk(skel, w, h, seen, eps[0]);
        WalkIsPath(skel, w, h, seen, eps[0]);
        TraceAllPaths(skel, w, h, eps[1..], minLen, walk.1);
        var rest := TraceAll(skel, w, h, eps[1..], minLen, walk.1);
        BranchesCons(walk.0, |walk.0| >= minLen, rest.0, eps, minLen, w, h, seen, walk.1, rest.1);
      }
    }
  }

  /** No pixel lies on two of the branches. */
  ghost predicate Disjoint(bs: seq<seq<Point>>) {
    forall k, l :: 0 <= k < l < |bs| ==> Elems(bs[k]) !! Elems(bs[l])
  }

  lemma DisjointCons(first: seq<Point>, keep: bool, rest: seq<seq<Point>>, eps: seq<Point>, minLen: int,
                     w: nat, h: nat, mid: set<Point>, after: set<Point>)
    requires Elems(first) <= mid && Disjoint(rest)
    requires AllBranchesFrom(rest, eps, minLen, w, h, mid, after)
    ensures Disjoint((if keep then [first] else []) + rest)
  {
    var bs := (if keep then [first] else []) + rest;
    if keep {
      forall k, l | 0 <= k < l < |bs| ensures Elems(bs[k]) !! Elems(bs[l]) {
        assert bs[l] == rest[l - 1] && BranchFrom(rest[l - 1], eps, minLen, w, h, mid, after);
        if k > 0 {
          assert bs[k] == rest[k - 1];
        }
      }
    } else {
      assert bs == rest;
    }
  }

  /** No pixel lies on two branches of the trace. */
  lemma {:induction false} TraceAllDisjoint(skel: Grid, w: nat, h: nat, eps: seq<Point>, minLen: int, seen: set<Point>)
    requires Fits(seen, w, h) && forall e :: e in eps ==> InBounds(e.x, e.y, w, h)
    ensures Disjoint(TraceAll(skel, w, h, eps, minLen, seen).0)
    decreases |eps|
  {
    if eps != [] {
      if eps[0] in seen {
        TraceAllDisjoint(skel, w, h, eps[1..], minLen, seen);
      } else {
        var walk := Walk(skel, w, h, seen, eps[0]);
        WalkIsPath(skel, w, h, seen, eps[0]);
        TraceAllDisjoint(skel, w, h, eps[1..], minLen, walk.1);
        TraceAllPaths(skel, w, h, eps[1..], minLen, walk.1);
        var rest := TraceAll(skel, w, h, eps[1..], minLen, walk.1);
        DisjointCons(walk.0, |walk.0| >= minLen, rest.0, eps[1..], minLen, w, h, walk.1, rest.1);
      }
    }
  }

  /** After the trace every endpoint has been visited. */
  lemma {:induction false} TraceAllVisitsEndpoints(skel: Grid, w: nat, h: nat, eps: seq<Point>, minLen: int, seen: set<Point>)
    requires Fits(seen, w, h) && forall e :: e in eps ==> InBounds(e.x, e.y, w, h)
    ensures forall e :: e in eps ==> e in TraceAll(skel, w, h, eps, minLen, seen).1
    decreases |eps|
  {
    if eps != [] {
      if eps[0] in seen {
        TraceAllVisitsEndpoints(skel, w, h, eps[1..], minLen, seen);
      } else {
        var walk := Walk(skel, w, h, seen, eps[0]);
        WalkStart(skel, w, h, seen, eps[0]);
        WalkVisits(skel, w, h, seen, eps[0]);
        assert eps[0] in Elems(walk.0);
        TraceAllVisitsEndpoints(skel, w, h, eps[1..], minLen, walk.1);
      }
    }
  }

  /** Traced from skeleton pixels of a skeleton closed towards the left and top border,
      every kept branch lies on the skeleton. */
  lemma {:induction false} TraceAllOnSkeleton(skel: Grid, w: nat, h: nat, eps: seq<Point>, minLen: int, seen: set<Point>)
    requires Fits(seen, w, h) && forall e :: e in eps ==> InBounds(e.x, e.y, w, h)
    requires BorderClosed(skel) && forall e :: e in eps ==> e in skel
    ensures OnSkeleton(TraceAll(skel, w, h, eps, minLen, seen).0, skel)
    decreases |eps|
  {
    if eps != [] {
      if eps[0] in seen {
        TraceAllOnSkeleton(skel, w, h, eps[1..], minLen, seen);
      } else {
        var walk := Walk(skel, w, h, seen, eps[0]);
        WalkOnSkeleton(skel, w, h, seen, eps[0]);
        TraceAllOnSkeleton(skel, w, h, eps[1..], minLen, walk.1);
        OnSkeletonCons(walk.0, |walk.0| >= minLen, TraceAll(skel, w, h, eps[1..], minLen, walk.1).0, skel);
      }
    }
  }

  /** Every point of every branch is a skeleton pixel. */
  ghost predicate OnSkeleton(bs: seq<seq<Point>>, skel: Grid) {
    forall k :: 0 <= k < |bs| ==> Elems(bs[k]) <= skel
  }

  lemma OnSkeletonCons(first: seq<Point>, keep: bool, rest: seq<seq<Point>>, skel: Grid)
    requires Elems(first) <= skel && OnSkeleton(rest, skel)
    ensures OnSkeleton((if keep then [first] else []) + rest, skel)
  {
    var bs := (if keep then [first] else []) + rest;
    forall k | 0 <= k < |bs| ensures Elems(bs[k]) <= skel {
      if keep && k == 0 {
        assert bs[k] == first;
      } else {
        assert bs[k] == rest[if keep then k - 1 else k];
      }
    }
  }

  /** The trace from no visited pixel yields valid branches. */
  lemma TraceAllValid(skel: Grid, w: nat, h: nat, eps: seq<Point>, minLen: int)
    requires forall e :: e in eps ==> InBounds(e.x, e.y, w, h)
    ensures ValidBranches(TraceAll(skel, w, h, eps, minLen, {}).0, eps, minLen, w, h)
  {
    TraceAllPaths(skel, w, h, eps, minLen, {});
    TraceAllDisjoint(skel, w, h, eps, minLen, {});
    var bs := TraceAll(skel, w, h, eps, minLen, {}).0;
    forall k | 0 <= k < |bs| ensures IsPath(bs[k], w, h) && |bs[k]| >= minLen && bs[k][0] in eps {
      assert BranchFrom(bs[k], eps, minLen, w, h, {}, TraceAll(skel, w, h, eps, minLen, {}).1);
    }
  }

  /** One iteration of the walking loop: mark `current`, then stop or move on. */
  lemma WalkAdvance(skel: Grid, w: nat, h: nat, seen0: set<Point>, start: Point, branch: seq<Point>,
                    seen: set<Point>, current: Point, next: Option<Point>)
    requires Fits(seen0, w, h) && InBounds(start.x, start.y, w, h) && start !in seen0
    requires Fits(seen, w, h) && InBounds(current.x, current.y, w, h) && current !in seen
    requires Walk(skel, w, h, seen0, start)
      == (branch + Walk(skel, w, h, seen, current).0, Walk(skel, w, h, seen, current).1)
    requires next == FirstOpen(skel, w, h, seen + {current}, current)
    ensures next.None? ==> Walk(skel, w, h, seen0, start) == (branch + [current], seen + {current})
    ensures next.Some? ==>
      InBounds(next.value.x, next.value.y, w, h) && next.value !in seen + {current}
      && Walk(skel, w, h, seen0, start)
         == (branch + [current] + Walk(skel, w, h, seen + {current}, next.value).0,
             Walk(skel, w, h, seen + {current}, next.value).1)
  {
    if next.Some? {
      FirstOpenSpec(skel, w, h, seen + {current}, current);
      QualifiesNear(skel, w, h, seen + {current}, current, next.value);
      ConcatAssoc(branch, [current], Walk(skel, w, h, seen + {current}, next.value).0);
    }
  }

  /** One iteration of the loop over the endpoints. */
  lemma TraceStep(skel: Grid, w: nat, h: nat, eps: seq<Point>, minLen: int, seen: set<Point>, i: nat)
    requires Fits(seen, w, h) && forall e :: e in eps ==> InBounds(e.x, e.y, w, h)
    requires i < |eps|
    ensures eps[i] in seen ==>
      TraceAll(skel, w, h, eps[i..], minLen, seen) == TraceAll(skel, w, h, eps[i + 1..], minLen, seen)
    ensures eps[i] !in seen ==>
      var walk := Walk(skel, w, h, seen, eps[i]);
      TraceAll(skel, w, h, eps[i..], minLen, seen).0
      == (if |walk.0| >= minLen then [walk.0] else []) + TraceAll(skel, w, h, eps[i + 1..], minLen, walk.1).0
  {
    assert eps[i..][0] == eps[i] && eps[i..][1..] == eps[i + 1..];
  }

  /** `visited[y, x] = 1` for the current point. */
  method MarkVisited(visited: array2<bool>, ghost seen: set<Point>, w: nat, h: nat, p: Point)
    modifies visited
    requires Mirrors(visited, seen, w, h) && InBounds(p.x, p.y, w, h)
    ensures Mirrors(visited, seen + {p}, w, h)
  {
    visited[p.y, p.x] := true;
  }

  /** The source's inner `while True` from `start`: append the current point, mark it
      visited, and move to the first candidate until there is none. */
  method WalkFrom(skel: Grid, w: nat, h: nat, visited: array2<bool>, ghost seen0: set<Point>, start: Point)
    returns (branch: seq<Point>, ghost seen: set<Point>)
    modifies visited
    requires Mirrors(visited, seen0, w, h) && Fits(seen0, w, h)
    requires InBounds(start.x, start.y, w, h) && start !in seen0
    ensures Mirrors(visited, seen, w, h)
    ensures (branch, seen) == Walk(skel, w, h, seen0, start)
  {
    branch := [];
    seen := seen0;
    var current := start;
    ConcatEmpty(Walk(skel, w, h, seen0, start).0);
    while true
      invariant Mirrors(visited, seen, w, h) && Fits(seen, w, h)
      invariant InBounds(current.x, current.y, w, h) && current !in seen
      invariant Walk(skel, w, h, seen0, start)
        == (branch + Walk(skel, w, h, seen, current).0, Walk(skel, w, h, seen, current).1)
      decreases |Unvisited(w, h, seen)|
    {
      ghost var before := seen;
      MarkVisited(visited, seen, w, h, current);
      VisitShrinks(w, h, seen, current);
      seen := seen + {current};
      var next := NextPoint(skel, w, h, visited, seen, current);
      WalkAdvance(skel, w, h, seen0, start, branch, before, current, next);
      branch := branch + [current];
      if next.None? {
        break;
      }
      current := next.value;
    }
  }

  /** `_find_branches`: from every endpoint not visited yet, walk to the first unvisited
      candidate of the clipped window until there is none, marking each point in the
      `visited` image shared by all walks; keep the walks of at least `minLen` points. */
  method FindBranches(skel: Grid, w: nat, h: nat, endpoints: seq<Point>, minLen: int)
    returns (branches: seq<seq<Point>>)
    requires forall e :: e in endpoints ==> InBounds(e.x, e.y, w, h)
    ensures branches == TraceAll(skel, w, h, endpoints, minLen, {}).0
    ensures ValidBranches(branches, endpoints, minLen, w, h)
    ensures BorderClosed(skel) && (forall e :: e in endpoints ==> e in skel) ==> OnSkeleton(branches, skel)
  {
    var visited := new bool[h, w]((_, _) => false);
    ghost var seen: set<Point> := {};
    branches := [];
    ConcatEmpty(TraceAll(skel, w, h, endpoints, minLen, {}).0);
    for i := 0 to |endpoints|
      invariant Mirrors(visited, seen, w, h) && Fits(seen, w, h)
      invariant TraceAll(skel, w, h, endpoints, minLen, {}).0
        == branches + TraceAll(skel, w, h, endpoints[i..], minLen, seen).0
    {
      var endpoint := endpoints[i];
      assert endpoint in endpoints;
      TraceStep(skel, w, h, endpoints, minLen, seen, i);
      if !visited[endpoint.y, endpoint.x] {
        var branch;
        ghost var seen0 := seen;
        branch, seen := WalkFrom(skel, w, h, visited, seen, endpoint);
        var kept := if |branch| >= minLen then [branch] else [];
        ConcatAssoc(branches, kept, TraceAll(skel, w, h, endpoints[i + 1..], minLen, seen).0);
        branches := branches + kept;
      }
    }
    ConcatEmpty(branches);
    TraceAllValid(skel, w, h, endpoints, minLen);
    if BorderClosed(skel) && forall e :: e in endpoints ==> e in skel {
      TraceAllOnSkeleton(skel, w, h, endpoints, minLen, {});
    }
  }

  /** At (0, 1), with only (0, 1) visited, the one candidate is (0, 2). */
  lemma BorderShiftFirstStep(skel: Grid)
    requires skel == {Point(0, 1), Point(1, 2)}
    ensures FirstOpen(skel, 2, 3, {Point(0, 1)}, Point(0, 1)) == Some(Point(0, 2))
  {
    var s1, c := {Point(0, 1)}, Point(0, 1);
    assert !OpenAt(skel, 2, 3, s1, c, Point(-1, 0)) && !OpenAt(skel, 2, 3, s1, c, Point(0, 0));
    assert !OpenAt(skel, 2, 3, s1, c, Point(-1, 1)) && !OpenAt(skel, 2, 3, s1, c, Point(0, 1));
    assert !OpenAt(skel, 2, 3, s1, c, Point(-1, 2)) && OpenAt(skel, 2, 3, s1, c, Point(0, 2));
    assert RowOpen(skel, 2, 3, s1, c, 0, 2) == [];
    assert RowOpen(skel, 2, 3, s1, c, 1, 2) == [];
    assert RowOpen(skel, 2, 3, s1, c, 2, 1) == [];
    assert RowOpen(skel, 2, 3, s1, c, 2, 2) == [Point(0, 2)];
    assert WindowOpen(skel, 2, 3, s1, c, 2) == [];
  }

  /** At (0, 2), with (0, 1) and (0, 2) visited, no candidate is left. */
  lemma BorderShiftSecondStep(skel: Grid)
    requires skel == {Point(0, 1), Point(1, 2)}
    ensures FirstOpen(skel, 2, 3, {Point(0, 1), Point(0, 2)}, Point(0, 2)) == None
  {
    var s2, c := {Point(0, 1), Point(0, 2)}, Point(0, 2);
    assert !OpenAt(skel, 2, 3, s2, c, Point(-1, 1)) && !OpenAt(skel, 2, 3, s2, c, Point(0, 1));
    assert !OpenAt(skel, 2, 3, s2, c, Point(-1, 2)) && !OpenAt(skel, 2, 3, s2, c, Point(0, 2));
    assert RowOpen(skel, 2, 3, s2, c, 0, 2) == [];
    assert RowOpen(skel, 2, 3, s2, c, 1, 2) == [];
  }

  /** The shifted window at work: in a 2-column, 3-row image whose skeleton is the diagonal
      pair (0, 1), (1, 2), the walk from (0, 1) reports (0, 2), which is not a skeleton
      pixel, because the window at (0, 1) is clipped at the left border and the pixel it
      inspects for (0, 2) is (1, 2). */
  lemma BorderShiftExample(skel: Grid)
    requires skel == {Point(0, 1), Point(1, 2)}
    ensures Walk(skel, 2, 3, {}, Point(0, 1)).0 == [Point(0, 1), Point(0, 2)]
    ensures Point(0, 2) !in skel
  {
    assert {} + {Point(0, 1)} == {Point(0, 1)};
    BorderShiftFirstStep(skel);
    WalkContinues(skel, 2, 3, {}, Point(0, 1), Point(0, 2));
    BorderShiftLastWalk(skel);
    ConsPair(Point(0, 1), Point(0, 2), Walk(skel, 2, 3, {Point(0, 1)}, Point(0, 2)).0, Walk(skel, 2, 3, {}, Point(0, 1)).0);
  }

  /** The walk's second and last step, from (0, 2). */
  lemma BorderShiftLastWalk(skel: Grid)
    requires skel == {Point(0, 1), Point(1, 2)}
    ensures Walk(skel, 2, 3, {Point(0, 1)}, Point(0, 2)).0 == [Point(0, 2)]
  {
    assert {Point(0, 1)} + {Point(0, 2)} == {Point(0, 1), Point(0, 2)};
    BorderShiftSecondStep(skel);
    WalkEnds(skel, 2, 3, {Point(0, 1)}, Point(0, 2));
  }

  lemma ConsPair(p: Point, q: Point, rest: seq<Point>, s: seq<Point>)
    requires rest == [q] && s == [p] + rest
    ensures s == [p, q]
  {
  }

  /** A walk whose next point is `next` continues from there. */
  lemma WalkContinues(skel: Grid, w: nat, h: nat, seen: set<Point>, cur: Point, next: Point)
    requires Fits(seen, w, h) && InBounds(cur.x, cur.y, w, h) && cur !in seen
    requires FirstOpen(skel, w, h, seen + {cur}, cur) == Some(next)
    ensures InBounds(next.x, next.y, w, h) && next !in seen + {cur}
    ensures Walk(skel, w, h, seen, cur).0 == [cur] + Walk(skel, w, h, seen + {cur}, next).0
  {
    FirstOpenSpec(skel, w, h, seen + {cur}, cur);
  }

  /** A walk with no next point stops where it is. */
  lemma WalkEnds(skel: Grid, w: nat, h: nat, seen: set<Point>, cur: Point)
    requires Fits(seen, w, h) && InBounds(cur.x, cur.y, w, h) && cur !in seen
    requires FirstOpen(skel, w, h, seen + {cur}, cur) == None
    ensures Walk(skel, w, h, seen, cur).0 == [cur]
  {
  }
}
