/** The analyzer object: it holds the road mask and the minimum branch length, and one
    analysis fills in the skeleton, its endpoints and the traced branches before scoring
    the eight directions from a start point snapped onto the road. */
module Analyzer {
  import opened Grids
  import opened Skeleton
  import opened Endpoints
  import opened Branches
  import opened Nearest
  import opened Directions

  /** The minimum branch length used when none is given. */
  const DefaultMinBranchLength: int := 100

  /** The image centre, with floor division: the start point when none is given. */
  function Centre(w: nat, h: nat): (c: Point)
    ensures w > 0 && h > 0 ==> InBounds(c.x, c.y, w, h)
  {
    Point(w / 2, h / 2)
  }

  /** The point to snap: the given start point, or the image centre. Unlike a given start
      point, which may lie anywhere, the default one lies in the image. */
  function Query(startPoint: Option<Point>, w: nat, h: nat): (q: Point)
    ensures startPoint.None? && w > 0 && h > 0 ==> InBounds(q.x, q.y, w, h)
    ensures startPoint.Some? && InBounds(startPoint.value.x, startPoint.value.y, w, h) ==> InBounds(q.x, q.y, w, h)
  {
    if startPoint.None? then Centre(w, h) else startPoint.value
  }

  /** What the first three stages of `analyze` produce from the mask: the skeleton (the
      union of the erosion residues, stopping once the eroded image is empty), its
      endpoints in scan order, and the branches traced from them, which lie on the skeleton. */
  ghost predicate Stages(mask: Grid, w: nat, h: nat, minLen: int, skel: Grid, eps: seq<Point>, bs: seq<seq<Point>>) {
    Fits(skel, w, h) && skel <= mask && BorderClosed(skel)
    && (exists n :: StopsAfter(mask, w, h, n) && skel == SkeletonUpTo(mask, w, h, n))
    && (forall p :: p in eps <==> IsEndpoint(skel, p))
    && RowMajorSorted(eps)
    && (forall p :: p in eps ==> InBounds(p.x, p.y, w, h))
    && bs == TraceAll(skel, w, h, eps, minLen, {}).0
    && ValidBranches(bs, eps, minLen, w, h)
    && OnSkeleton(bs, skel)
  }

  /** Every traced branch holds at least its endpoint. */
  lemma BranchesNonEmpty(mask: Grid, w: nat, h: nat, minLen: int, skel: Grid, eps: seq<Point>, bs: seq<seq<Point>>)
    requires Stages(mask, w, h, minLen, skel, eps, bs)
    ensures NonEmptyBranches(bs)
  {
    forall k | 0 <= k < |bs| ensures |bs[k]| >= 1 {
      assert bs[k] in bs;
    }
  }

  /** The first three stages of `analyze`: skeleton, endpoints, branches. */
  method RunStages(mask: Grid, w: nat, h: nat, minLen: int) returns (skel: Grid, eps: seq<Point>, bs: seq<seq<Point>>)
    requires Fits(mask, w, h) && w > 0 && h > 0 && mask != Cells(w, h)
    ensures Stages(mask, w, h, minLen, skel, eps, bs)
  {
    skel := CreateSkeleton(mask, w, h);
    eps := FindEndpoints(skel, w, h);
    assert forall p :: p in eps ==> InBounds(p.x, p.y, w, h) && p in skel by {
      forall p | p in eps ensures InBounds(p.x, p.y, w, h) && p in skel {
        assert IsEndpoint(skel, p);
      }
    }
    bs := FindBranches(skel, w, h, eps, minLen);
  }

  /** The skeleton {(0, 1), (1, 2)} of a 2 x 3 image, on which the walk leaves the skeleton
      (`Branches.BorderShiftExample`), is not closed towards the border, so no mask
      skeletonizes to it. */
  lemma BorderShiftSkeletonUnreachable(mask: Grid, k: nat)
    ensures SkeletonUpTo(mask, 2, 3, k) != {Point(0, 1), Point(1, 2)}
  {
    SkeletonBorderClosed(mask, 2, 3, k);
    var skel := SkeletonUpTo(mask, 2, 3, k);
    assert Point(1, 2) in skel ==> Point(0, 2) in skel;
  }

  class RoadDirectionAnalyzer {
    const mask: Grid
    const minBranchLength: int
    const width: nat
    const height: nat
    var skeleton: Option<Grid>
    var endpoints: Option<seq<Point>>
    var branches: Option<seq<seq<Point>>>

    /** A fresh analyzer: the image size is read off the mask and nothing is computed yet. */
    constructor(mask: Grid, width: nat, height: nat, minBranchLength: int := DefaultMinBranchLength)
      requires Fits(mask, width, height)
      ensures this.mask == mask && this.width == width && this.height == height
      ensures this.minBranchLength == minBranchLength
      ensures skeleton == None && endpoints == None && branches == None
    {
      this.mask := mask;
      this.minBranchLength := minBranchLength;
      this.width, this.height := width, height;
      skeleton, endpoints, branches := None, None, None;
    }

    /** `analyze`: skeletonize the mask, find the endpoints, trace the branches, snap the
        start point (the image centre when none is given) to the nearest skeleton pixel and
        score the directions from there. The skeleton, endpoints and branches are kept in
        the object. The result is `None` exactly when scoring divides by a minimum branch
        length of 0. */
    method Analyze(atan2: (real, real) -> Angle, sqrt: real -> NonNegReal, startPoint: Option<Point>)
      returns (r: Option<map<Direction, real>>)
      requires Fits(mask, width, height) && width > 0 && height > 0 && mask != Cells(width, height)
      modifies this
      ensures skeleton.Some? && endpoints.Some? && branches.Some?
      ensures Stages(mask, width, height, minBranchLength, skeleton.value, endpoints.value, branches.value)
      ensures r.None? <==> minBranchLength == 0 && branches.value != []
      ensures exists start ::
                IsNearest(skeleton.value, Query(startPoint, width, height), start)
                && (r.Some? ==> r.value == Analysis(atan2, sqrt, branches.value, start, minBranchLength))
    {
      var skel, eps, bs := RunStages(mask, width, height, minBranchLength);
      var query := if startPoint.None? then Centre(width, height) else startPoint.value;
      var start := FindNearestRoadPoint(skel, width, height, query);
      assert IsNearest(skel, Query(startPoint, width, height), start);
      BranchesNonEmpty(mask, width, height, minBranchLength, skel, eps, bs);
      r := AnalyzeDirections(atan2, sqrt, bs, start, minBranchLength);
      skeleton, endpoints, branches := Some(skel), Some(eps), Some(bs);
    }
  }
}
