/** Binary images shared by every stage of the road-direction analysis: the road mask and
    the skeleton. An image of `w` columns and `h` rows is modelled by the set of its set
    (nonzero) pixels, which `Fits` keeps inside the image. */
module Grids {

  /** A pixel coordinate in image terms: `x` is the column, `y` the row (growing downward). */
  datatype Point = Point(x: int, y: int)

  datatype Option<T> = None | Some(value: T)

  /** The set pixels of a binary image. */
  type Grid = set<Point>

  predicate InBounds(x: int, y: int, w: nat, h: nat) {
    0 <= x < w && 0 <= y < h
  }

  /** All pixels of a `w` by `h` image. */
  function Cells(w: nat, h: nat): (c: set<Point>)
    ensures forall p :: p in c <==> InBounds(p.x, p.y, w, h)
  {
    set x, y | 0 <= x < w && 0 <= y < h :: Point(x, y)
  }

  /** `g` is a binary image of `w` columns and `h` rows. */
  predicate Fits(g: Grid, w: nat, h: nat) {
    g <= Cells(w, h)
  }

  /** Pixel (x, y) is set; a coordinate outside the image is never set, so a 3x3 window
      clipped at the border sees exactly the pixels `IsSet` reports. */
  predicate IsSet(g: Grid, x: int, y: int) {
    Point(x, y) in g
  }

  /** Closed towards the left and top border: a set pixel of the second column has its left
      neighbour set, and a set pixel of the second row its upper neighbour. Every skeleton the
      skeletonizer produces has this shape. */
  ghost predicate BorderClosed(g: Grid) {
    (forall y {:trigger Point(1, y) in g} :: Point(1, y) in g ==> Point(0, y) in g)
    && (forall x {:trigger Point(x, 1) in g} :: Point(x, 1) in g ==> Point(x, 0) in g)
  }

  /** Strict row-major order: `p` is scanned before `q` by a scan over rows, then columns. */
  predicate Before(p: Point, q: Point) {
    p.y < q.y || (p.y == q.y && p.x < q.x)
  }

  predicate RowMajorSorted(s: seq<Point>) {
    forall i, j :: 0 <= i < j < |s| ==> Before(s[i], s[j])
  }

  /** No point occurs twice. */
  predicate Distinct(s: seq<Point>) {
    forall i, j :: 0 <= i < j < |s| ==> s[i] != s[j]
  }

  /** The points of a sequence. */
  function Elems(s: seq<Point>): set<Point> {
    set p | p in s
  }

  /** Two row-major sorted sequences, the first wholly before the second, concatenate sorted. */
  lemma SortedConcat(a: seq<Point>, b: seq<Point>)
    requires RowMajorSorted(a) && RowMajorSorted(b)
    requires forall i, j :: 0 <= i < |a| && 0 <= j < |b| ==> Before(a[i], b[j])
    ensures RowMajorSorted(a + b)
  {
    forall i, j | 0 <= i < j < |a + b| ensures Before((a + b)[i], (a + b)[j]) {
      if j < |a| {
        assert (a + b)[i] == a[i] && (a + b)[j] == a[j];
      } else if i < |a| {
        assert (a + b)[i] == a[i] && (a + b)[j] == b[j - |a|];
      } else {
        assert (a + b)[i] == b[i - |a|] && (a + b)[j] == b[j - |a|];
      }
    }
  }

  /** A row-major sorted sequence of points above row `y`, followed by a sorted sequence of
      points in row `y`, is sorted. */
  lemma SortedRows(a: seq<Point>, b: seq<Point>, y: int)
    requires RowMajorSorted(a) && RowMajorSorted(b)
    requires forall p :: p in a ==> p.y < y
    requires forall p :: p in b ==> p.y == y
    ensures RowMajorSorted(a + b)
  {
    forall i, j | 0 <= i < |a| && 0 <= j < |b| ensures Before(a[i], b[j]) {
      assert a[i] in a && b[j] in b;
    }
    SortedConcat(a, b);
  }

  lemma ConcatAssoc<T>(a: seq<T>, b: seq<T>, c: seq<T>)
    ensures a + b + c == a + (b + c)
  {
  }

  lemma ConcatEmpty<T>(s: seq<T>)
    ensures [] + s == s && s + [] == s
  {
  }

  /** A subset is no larger than its superset. */
  lemma SubsetCard<T>(a: set<T>, b: set<T>)
    requires a <= b
    ensures |a| <= |b|
  {
    assert b == a + (b - a);
  }

  function Abs(n: int): nat {
    if n < 0 then -n else n
  }

  /** Chebyshev distance: the number of 8-connected steps between two points. */
  function Chebyshev(p: Point, q: Point): nat {
    var dx, dy := Abs(p.x - q.x), Abs(p.y - q.y);
    if dx < dy then dy else dx
  }

  function Row(w: nat, y: int): set<Point> {
    set x | 0 <= x < w :: Point(x, y)
  }

  lemma {:induction false} RowSize(w: nat, y: int)
    ensures |Row(w, y)| == w
  {
    if w > 0 {
      RowSize(w - 1, y);
      assert Row(w, y) == Row(w - 1, y) + {Point(w - 1, y)};
    }
  }

  /** The last row of an image is split off from the rows above it. */
  lemma CellsSplit(w: nat, h: nat)
    requires h > 0
    ensures Cells(w, h) == Cells(w, h - 1) + Row(w, h - 1)
    ensures Cells(w, h - 1) !! Row(w, h - 1)
  {
  }

  /** A `w` by `h` image has exactly `w * h` pixels. */
  lemma {:induction false} CellsSize(w: nat, h: nat)
    ensures |Cells(w, h)| == w * h
  {
    if h > 0 {
      CellsSize(w, h - 1);
      RowSize(w, h - 1);
      CellsSplit(w, h);
      assert w * h == w * (h - 1) + w;
    }
  }

  lemma ElemsCons(p: Point, s: seq<Point>)
    ensures Elems([p] + s) == {p} + Elems(s)
  {
    forall q ensures q in Elems([p] + s) <==> q == p || q in Elems(s) {
      assert q in [p] + s <==> q == p || q in s;
    }
  }

  /** A point not in a sequence of distinct points, put in front of it, keeps the points distinct. */
  lemma DistinctCons(p: Point, s: seq<Point>)
    requires Distinct(s) && p !in Elems(s)
    ensures Distinct([p] + s)
  {
    var b := [p] + s;
    forall i, j | 0 <= i < j < |b| ensures b[i] != b[j] {
      if i == 0 {
        assert b[j] == s[j - 1] && s[j - 1] in Elems(s);
      } else {
        assert b[i] == s[i - 1] && b[j] == s[j - 1];
      }
    }
  }

  /** Consecutive points one 8-connected step apart. */
  predicate Connected(s: seq<Point>) {
    forall i :: 0 <= i < |s| - 1 ==> Chebyshev(s[i], s[i + 1]) <= 1
  }

  lemma ConnectedCons(p: Point, s: seq<Point>)
    requires Connected(s) && s != [] && Chebyshev(p, s[0]) <= 1
    ensures Connected([p] + s)
  {
    var b := [p] + s;
    forall i | 0 <= i < |b| - 1 ensures Chebyshev(b[i], b[i + 1]) <= 1 {
      if i > 0 {
        assert b[i] == s[i - 1] && b[i + 1] == s[i];
      }
    }
  }
}
