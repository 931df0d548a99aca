# Road direction analysis, modelled in Dafny

This project models `RoadDirectionAnalyzer`, the road-direction engine of the CV_Project
repository (`project/.ipynb_checkpoints/direction-checkpoint.py`). Given a binary road mask,
the engine estimates which of the eight compass directions a traveller can take from a
start point. It runs in five stages:

1. **Skeleton.** `_create_skeleton` thins the mask by repeated 3x3 erosion. Each pass keeps
   the pixels of the eroded image that a morphological opening removes.
2. **Endpoints.** `_find_endpoints` keeps the skeleton pixels whose 3x3 window, clipped at
   the image border, holds exactly two set pixels.
3. **Branches.** `_find_branches` makes a greedy walk from every endpoint not yet visited.
   All walks share one `visited` image. A walk keeps only branches of at least
   `min_branch_length` points.
4. **Start point.** `_find_nearest_road_point` snaps the start point to the nearest skeleton
   pixel.
5. **Scores.** `_analyze_directions` lets every branch vote for the directions within 45
   degrees of its heading. Each direction keeps its best vote, and the scores are then
   rescaled so that the best one is 1.

Modules, one per stage, in the order `analyze` runs them:

- `grid.dfy` (`Grids`): binary images as sets of set pixels inside a `w` x `h` frame, and
  sequence facts shared by the stages.
- `skeleton.dfy` (`Skeleton`): erosion with pixels outside the image counted as set (OpenCV's
  default border for erosion) and dilation with them counted as unset. The skeletonizer is a
  `while` loop proved against the pass-by-pass accumulator `SkeletonUpTo`.
- `endpoints.dfy` (`Endpoints`): the window count, and the row-major scan as nested loops
  proved against `ScanEndpoints`.
- `branches.dfy` (`Branches`): the walk over the skeleton. The `visited` image is an
  `array2<bool>` updated in place and mirrored by a ghost set. The specification functions
  are `Walk` (one branch) and `TraceAll` (the loop over the endpoints).
- `nearest.dfy` (`Nearest`): the arg-min scan.
- `directions.dfy` (`Directions`): the `Direction` enumeration, `_direction_to_angle`,
  `_normalize_angle` (two `while` loops), the voting loops and the rescaling, over reals.
- `analyzer.dfy` (`Analyzer`): the class, its constructor and `analyze`, which stores the
  skeleton, endpoints and branches in the object's fields.

The branch walk computes a neighbour's global coordinate as `x + nx - 1`, where `nx` is a
column index into the window around `(x, y)`. When that window is clipped at the left or
top border, the coordinate is one column (or row) short of the pixel the window shows. The
model keeps this arithmetic.
- `Branches.QualifiesInspects` states which skeleton pixel is actually inspected.
- `Branches.QualifiesStaysOnBorder` states that a walk in the first row never leaves that row,
  and a walk in the first column never leaves that column. Away from the corner, the pixel
  inspected for a candidate `(x', 0)` is `(x', 1)`, one row down, so the walk along the first
  row follows the set pixels of the second row; the first column behaves the same way.
- The skeletonizer erodes with pixels outside the image counted as set. So every skeleton it
  produces is closed towards the left and top border: a set pixel in the second column has its
  left neighbour set, and a set pixel in the second row has its upper neighbour set
  (`Skeleton.SkeletonBorderClosed`). On such a skeleton the shifted candidate is itself a
  skeleton pixel (`Branches.QualifiesOnSkeleton`). Hence every branch `analyze` traces
  consists of skeleton pixels (`Branches.TraceAllOnSkeleton`, `Analyzer.RunStages`).
- `Branches.BorderShiftExample` runs the walk on a hand-made skeleton that is not closed
  towards the border; there the walk reports a point that is not a skeleton pixel. No mask
  skeletonizes to that skeleton (`Analyzer.BorderShiftSkeletonUnreachable`).

`_find_branches` works on any skeleton it is given. For an arbitrary one the model proves that
branch points lie in the image, are 8-connected, never repeat, and belong to at most one branch
(`Branches.TraceAllValid`); that they are skeleton pixels needs the closure above.

The rescaling in `_analyze_directions` divides by the largest score only when it is positive.
With a positive minimum branch length and at least one branch, some score is then exactly 1
(`Directions.AnalysisTop`). With a negative minimum branch length every vote is negative, so
every score stays 0 (`Directions.AnalysisZero`).

## Model

| member | source | states |
|---|---|---|
| Skeleton.CreateSkeleton | project/.ipynb_checkpoints/direction-checkpoint.py:113-133 | the result lies within the mask, is closed towards the left and top border, and is the union of `eroded - opened` over the passes up to the first pass whose eroded image is empty |
| Skeleton.Erode | project/.ipynb_checkpoints/direction-checkpoint.py:120 | `cv2.erode` with the default 3x3 element: a pixel survives when its whole window is set, pixels outside the image counting as set |
| Skeleton.Dilate | project/.ipynb_checkpoints/direction-checkpoint.py:122 | the dilation half of the opening: a pixel is reached when some pixel of its window is set, pixels outside the image counting as unset |
| Skeleton.Open | project/.ipynb_checkpoints/direction-checkpoint.py:122 | `cv2.morphologyEx(..., MORPH_OPEN, None)`: erosion followed by dilation |
| Skeleton.Thin | project/.ipynb_checkpoints/direction-checkpoint.py:124 | `eroded - opened`, the pixels one pass adds to the skeleton |
| Skeleton.ErodeWithin | project/.ipynb_checkpoints/direction-checkpoint.py:120 | erosion with the default element never adds a pixel |
| Skeleton.OpenWithin | project/.ipynb_checkpoints/direction-checkpoint.py:122-124 | the opening lies within the eroded image, so `eroded - opened` never wraps around and is a set difference |
| Skeleton.ErodeNShrinks | project/.ipynb_checkpoints/direction-checkpoint.py:118-128 | the working image never gains a pixel from one pass to the next and stays within the mask |
| Skeleton.SkeletonWithinMask | project/.ipynb_checkpoints/direction-checkpoint.py:115-128 | every pixel of the accumulator after any number of passes is set in the mask |
| Skeleton.StopsAfterLastPass | project/.ipynb_checkpoints/direction-checkpoint.py:130-131 | the loop exits after the first pass that leaves the working image empty, and after no earlier pass |
| Skeleton.FullMaskIsFixedPoint | project/.ipynb_checkpoints/direction-checkpoint.py:118-131 | a mask with every pixel set is unchanged by erosion, so the loop never exits on it |
| Skeleton.ErodeNHole | project/.ipynb_checkpoints/direction-checkpoint.py:120 | after k erosions no pixel within Chebyshev distance k of an unset mask pixel is set |
| Skeleton.PassBound | project/.ipynb_checkpoints/direction-checkpoint.py:118-131 | with an unset pixel in the mask the working image is empty after fewer than w + h passes, so the loop ends |
| Skeleton.ErodeBorderClosed | project/.ipynb_checkpoints/direction-checkpoint.py:120 | an eroded image has the left neighbour of every set pixel in the second column set, and the upper neighbour of every set pixel in the second row |
| Skeleton.OpenReachesInward | project/.ipynb_checkpoints/direction-checkpoint.py:122 | an opening that reaches a pixel of the first column (row) also reaches its neighbour in the second column (row) |
| Skeleton.ThinBorderClosed | project/.ipynb_checkpoints/direction-checkpoint.py:122-124 | `eroded - opened` keeps the eroded image's closure towards the left and top border |
| Skeleton.SkeletonBorderClosed | project/.ipynb_checkpoints/direction-checkpoint.py:115-128 | the skeleton after any number of passes is closed towards the left and top border |
| Endpoints.FindEndpoints | project/.ipynb_checkpoints/direction-checkpoint.py:135-151 | the result holds exactly the skeleton pixels whose clipped window holds two set pixels, in row-major order |
| Endpoints.WindowCount | project/.ipynb_checkpoints/direction-checkpoint.py:144-148 | `np.sum(neighborhood > 0)` over the 3x3 window clipped at the image border |
| Endpoints.IsEndpoint | project/.ipynb_checkpoints/direction-checkpoint.py:148-149 | a skeleton pixel is reported when its clipped window holds exactly two set pixels |
| Endpoints.CountSetIsCardinality | project/.ipynb_checkpoints/direction-checkpoint.py:148 | counting set pixels over distinct window cells is the size of the set of set cells |
| Endpoints.WindowCountIsNeighbours | project/.ipynb_checkpoints/direction-checkpoint.py:144-148 | the clipped window count is the pixel itself plus its set 8-neighbours |
| Endpoints.EndpointHasOneNeighbour | project/.ipynb_checkpoints/direction-checkpoint.py:144-149 | a pixel is an endpoint exactly when it is set and has exactly one set 8-neighbour |
| Endpoints.ScanEndpointsSpec | project/.ipynb_checkpoints/direction-checkpoint.py:140-149 | the scan of the first m rows lists exactly the endpoints in those rows, row-major sorted |
| Endpoints.SegmentEndpoints | project/.ipynb_checkpoints/direction-checkpoint.py:135-151 | a horizontal segment of two or more pixels has exactly its two ends as endpoints |
| Branches.ScanRow | project/.ipynb_checkpoints/direction-checkpoint.py:176-183 | scanning one window row appends that row's candidates, read off the `visited` array, to `next_points` |
| Branches.NextPoint | project/.ipynb_checkpoints/direction-checkpoint.py:168-188 | the point the walk moves to is the first candidate of the clipped window, or none |
| Branches.CandidatesSpec | project/.ipynb_checkpoints/direction-checkpoint.py:170-183 | `next_points` holds exactly the qualifying window points, in row-major order |
| Branches.FirstOpenSpec | project/.ipynb_checkpoints/direction-checkpoint.py:185-188 | the walk stops exactly when no point qualifies; otherwise it moves to a qualifying point with no qualifying point before it in row-major order |
| Branches.QualifiesNear | project/.ipynb_checkpoints/direction-checkpoint.py:177-183 | a candidate is inside the image, unvisited and within one 8-connected step of the current point |
| Branches.QualifiesAwayFromBorder | project/.ipynb_checkpoints/direction-checkpoint.py:170-183 | away from the left and top border, the candidates are exactly the unvisited set 8-neighbours (or the point itself) |
| Branches.QualifiesInspects | project/.ipynb_checkpoints/direction-checkpoint.py:170-183 | a candidate's window cell is the skeleton pixel one column right (left border) or one row down (top border) of it |
| Branches.QualifiesStaysOnBorder | project/.ipynb_checkpoints/direction-checkpoint.py:170-183 | from a point in the first column (row) every candidate lies in the first column (row) |
| Branches.QualifiesOnSkeleton | project/.ipynb_checkpoints/direction-checkpoint.py:170-183 | on a skeleton closed towards the left and top border every candidate is a skeleton pixel |
| Branches.Walk | project/.ipynb_checkpoints/direction-checkpoint.py:164-188 | a walk has no more points than there are unvisited pixels, and it only adds to the visited set |
| Branches.WalkStart | project/.ipynb_checkpoints/direction-checkpoint.py:162-165 | a branch starts with its endpoint |
| Branches.WalkVisits | project/.ipynb_checkpoints/direction-checkpoint.py:165-166 | after a walk the visited set is the old one plus exactly the branch's points, none of which was visited before |
| Branches.WalkDistinct | project/.ipynb_checkpoints/direction-checkpoint.py:164-188 | no point repeats within a branch |
| Branches.WalkAdjacent | project/.ipynb_checkpoints/direction-checkpoint.py:176-188 | consecutive branch points are one 8-connected step apart |
| Branches.WalkStops | project/.ipynb_checkpoints/direction-checkpoint.py:185-186 | at the last point of a branch no candidate is left |
| Branches.WalkBound | project/.ipynb_checkpoints/direction-checkpoint.py:164-188 | a walk has at most width * height points |
| Branches.WalkIsPath | project/.ipynb_checkpoints/direction-checkpoint.py:164-188 | a branch is a nonempty, repetition-free, 8-connected sequence of in-image points |
| Branches.WalkOnSkeleton | project/.ipynb_checkpoints/direction-checkpoint.py:164-188 | from a skeleton pixel of a border-closed skeleton, a walk passes skeleton pixels only |
| Branches.MarkVisited | project/.ipynb_checkpoints/direction-checkpoint.py:166 | after the store, the `visited` array marks exactly the old points plus the new one |
| Branches.WalkFrom | project/.ipynb_checkpoints/direction-checkpoint.py:161-188 | the `while True` walk returns the branch and visited set of `Walk`, and the array mirrors that set |
| Branches.TraceAll | project/.ipynb_checkpoints/direction-checkpoint.py:159-191 | the loop over the endpoints, as a function: it only adds to the visited pixels and keeps them in the image |
| Branches.TraceAllPaths | project/.ipynb_checkpoints/direction-checkpoint.py:159-191 | every kept branch is a path of at least `min_branch_length` points starting at one of the endpoints |
| Branches.TraceAllDisjoint | project/.ipynb_checkpoints/direction-checkpoint.py:156-191 | no point lies in two kept branches |
| Branches.TraceAllVisitsEndpoints | project/.ipynb_checkpoints/direction-checkpoint.py:159-166 | every endpoint is visited once the loop is done, including those of dropped branches |
| Branches.TraceAllValid | project/.ipynb_checkpoints/direction-checkpoint.py:153-193 | the branches are paths from endpoints, long enough, and pairwise disjoint |
| Branches.TraceAllOnSkeleton | project/.ipynb_checkpoints/direction-checkpoint.py:159-191 | traced from skeleton pixels of a border-closed skeleton, every kept branch lies on the skeleton |
| Branches.FindBranches | project/.ipynb_checkpoints/direction-checkpoint.py:153-193 | the loop over the endpoints returns exactly `TraceAll`'s branches, which are valid; on a border-closed skeleton with endpoints on it, every branch point is a skeleton pixel |
| Branches.BorderShiftExample | project/.ipynb_checkpoints/direction-checkpoint.py:177-178 | for the hand-made skeleton {(0,1), (1,2)} in a 2 x 3 image, the walk from (0,1) reports [(0,1), (0,2)], and (0,2) is not a skeleton pixel |
| Nearest.FindNearestRoadPoint | project/.ipynb_checkpoints/direction-checkpoint.py:195-209 | the result is the query point for an empty skeleton; otherwise it is a skeleton pixel at minimal distance, strictly closer than every pixel scanned before it |
| Nearest.ScanStep | project/.ipynb_checkpoints/direction-checkpoint.py:203-207 | one scanned pixel replaces the best so far exactly when it is set and strictly closer |
| Nearest.NearestUnique | project/.ipynb_checkpoints/direction-checkpoint.py:203-209 | the snapped point is determined by the skeleton and the query, because ties go to the first in scan order |
| Directions.Index | project/.ipynb_checkpoints/direction-checkpoint.py:7-15 | each direction sits at its declared position of the enumeration |
| Directions.AllListed | project/.ipynb_checkpoints/direction-checkpoint.py:7-15 | iterating over the enumeration meets all eight directions |
| Directions.DirectionToAngle | project/.ipynb_checkpoints/direction-checkpoint.py:246-259 | the angle table: East 0, angles in steps of pi/4 growing clockwise on screen, each in (-pi, pi] |
| Directions.ClosestDirection | project/.ipynb_checkpoints/direction-checkpoint.py:246-259 | every angle in [-pi, pi] is within pi/8 of some direction's angle |
| Directions.ClosestDirectionInverse | project/.ipynb_checkpoints/direction-checkpoint.py:246-259 | each direction's angle lies in that direction's own sector, so the table gives eight distinct angles |
| Directions.WrapDown | project/.ipynb_checkpoints/direction-checkpoint.py:264-265 | subtracting 2pi while above pi ends at most pi, above -pi when it moved, and leaves angles up to pi alone |
| Directions.WrapUp | project/.ipynb_checkpoints/direction-checkpoint.py:266-267 | adding 2pi while below -pi ends at least -pi, below pi when it moved, and leaves angles from -pi up alone |
| Directions.Wrap | project/.ipynb_checkpoints/direction-checkpoint.py:264-267 | the two loops bring any angle into [-pi, pi] and leave angles already there unchanged |
| Directions.AngleDiff | project/.ipynb_checkpoints/direction-checkpoint.py:261-268 | the normalized difference lies in [0, pi] |
| Directions.AngleDiffPeriodic | project/.ipynb_checkpoints/direction-checkpoint.py:261-268 | angles a whole turn apart normalize to the same value |
| Directions.NormalizeAngle | project/.ipynb_checkpoints/direction-checkpoint.py:261-268 | the two `while` loops and `abs` return the distance to the nearest multiple of 2pi, in [0, pi] |
| Directions.EveryHeadingAligned | project/.ipynb_checkpoints/direction-checkpoint.py:229-235 | every heading is strictly within pi/4 of some direction, so every branch votes at least once |
| Directions.Weight | project/.ipynb_checkpoints/direction-checkpoint.py:226-227 | the distance weight lies in (0, 1] |
| Directions.Heading | project/.ipynb_checkpoints/direction-checkpoint.py:218-220 | `atan2(dy, dx)` of the offset from the start point to the branch's last point |
| Directions.Distance | project/.ipynb_checkpoints/direction-checkpoint.py:226 | `sqrt(dx**2 + dy**2)` of the same offset |
| Directions.Vote | project/.ipynb_checkpoints/direction-checkpoint.py:236 | `(1 - angle_diff / (pi / 4)) * weight * (length / min_branch_length)` |
| Directions.Contribution | project/.ipynb_checkpoints/direction-checkpoint.py:229-236 | the vote of one branch for one direction, from its heading, distance and length |
| Directions.Score | project/.ipynb_checkpoints/direction-checkpoint.py:213-237 | a raw score, the maximum of 0 and the aligned branches' votes, is never negative |
| Directions.Scores | project/.ipynb_checkpoints/direction-checkpoint.py:213-237 | all eight directions have a raw score |
| Directions.MaxScore | project/.ipynb_checkpoints/direction-checkpoint.py:240 | the maximum is at least every score and equal to one of them |
| Directions.RescaleSpec | project/.ipynb_checkpoints/direction-checkpoint.py:239-242 | rescaled scores lie in [0, 1], the best is 1 when any score was positive, and all-zero scores are left alone |
| Directions.RescalePositive | project/.ipynb_checkpoints/direction-checkpoint.py:239-242 | rescaling keeps a score positive exactly when it was positive |
| Directions.VoteSign | project/.ipynb_checkpoints/direction-checkpoint.py:235-236 | a vote within pi/4 has the sign of `min_branch_length` |
| Directions.ContributionSign | project/.ipynb_checkpoints/direction-checkpoint.py:235-236 | an aligned branch votes a positive amount for a positive minimum length and a negative one for a negative length |
| Directions.ScorePositive | project/.ipynb_checkpoints/direction-checkpoint.py:216-237 | with a positive minimum length a raw score is positive exactly when some branch is within pi/4 of the direction |
| Directions.ScoreNegativeMinimum | project/.ipynb_checkpoints/direction-checkpoint.py:236-237 | with a negative minimum length every raw score stays 0 |
| Directions.Analysis | project/.ipynb_checkpoints/direction-checkpoint.py:211-244 | every final score lies in [0, 1] |
| Directions.AnalysisPositive | project/.ipynb_checkpoints/direction-checkpoint.py:211-244 | with a positive minimum length a final score is positive exactly when some branch is aligned with the direction |
| Directions.AnalysisTop | project/.ipynb_checkpoints/direction-checkpoint.py:211-244 | with a positive minimum length and at least one branch, some direction scores exactly 1 |
| Directions.AnalysisZero | project/.ipynb_checkpoints/direction-checkpoint.py:211-244 | without branches, or with a negative minimum length, all eight scores are 0 |
| Directions.ScoreBranch | project/.ipynb_checkpoints/direction-checkpoint.py:216-237 | scoring one more branch fails exactly when the minimum length is 0; otherwise every direction's score then counts that branch too |
| Directions.AnalyzeDirections | project/.ipynb_checkpoints/direction-checkpoint.py:211-244 | the method fails exactly when it would divide by a zero minimum length, and otherwise returns `Analysis` |
| Analyzer.Centre | project/.ipynb_checkpoints/direction-checkpoint.py:51-52 | the default start point, the centre by floor division, lies in a nonempty image |
| Analyzer.Query | project/.ipynb_checkpoints/direction-checkpoint.py:50-52 | the default start point lies in a nonempty image, and a given start point is used as it is, so it lies in the image when the caller's does |
| Analyzer.RunStages | project/.ipynb_checkpoints/direction-checkpoint.py:43-48 | skeleton, endpoints and branches satisfy every stage's specification, chained, and every branch point is a skeleton pixel |
| Analyzer.BranchesNonEmpty | project/.ipynb_checkpoints/direction-checkpoint.py:162-165 | every traced branch holds at least its endpoint, so `branch[-1]` exists |
| Analyzer.BorderShiftSkeletonUnreachable | project/.ipynb_checkpoints/direction-checkpoint.py:113-133 | no mask of a 2 x 3 image skeletonizes to {(0,1), (1,2)}, the skeleton of `Branches.BorderShiftExample` |
| Analyzer.RoadDirectionAnalyzer.constructor | project/.ipynb_checkpoints/direction-checkpoint.py:18-31 | stores the mask, size and minimum length (100 by default) and leaves the three results unset |
| Analyzer.RoadDirectionAnalyzer.Analyze | project/.ipynb_checkpoints/direction-checkpoint.py:33-60 | stores the skeleton, endpoints and branches (the branches on the skeleton), snaps the start point, and returns the scores, failing exactly on a zero minimum length with branches present |

## Left out

- `visualize`, `analyze_road_directions` and the `__main__` block: these read, draw and show images through OpenCV.
- `server/seg.py`, `server/server.py` and the `client/` sources are not part of this model. They are OpenCV thresholding, an HTTP endpoint and a user interface.
- Floating point: scores, angles and `pi` are exact reals. `pi` is 3.141592653589793, the shortest decimal that reads back as `math.pi`; the double itself is 3.141592653589793115997963..., and the difference is not modelled. Rounding in `atan2`, `sqrt`, the divisions and the loops of `_normalize_angle` is not modelled.
- `math.atan2` and `math.sqrt` are parameters: any function into [-pi, pi] and any function into the non-negative reals. No lemma depends on which function they are.
- Grey-level masks: the mask is binary (a pixel is set or not). The uint8 values of a grey-level mask, and the grey-level erosion OpenCV would perform on them, are not modelled.
- Skeleton.CreateSkeleton and Analyzer.RoadDirectionAnalyzer.Analyze require a mask with at least one unset pixel. On a mask with every pixel set, erosion with OpenCV's default border changes nothing and the source never returns (`Skeleton.FullMaskIsFixedPoint`).
- Skeleton.CreateSkeleton and Analyzer.RoadDirectionAnalyzer.Analyze require a nonempty image, which OpenCV demands.
- Nearest.FindNearestRoadPoint compares squared integer distances instead of `math.sqrt` results. `sqrt` is strictly increasing, so both pick the same pixel for exact reals. Ties created by float rounding are not modelled.
- Directions.AnalyzeDirections and Analyzer.RoadDirectionAnalyzer.Analyze return `None` where the source raises `ZeroDivisionError`, which happens for a minimum branch length of 0 once a branch exists. The exception itself is not modelled.
- The result dictionary is a `map` from directions to scores. Python's key order is not modelled; it follows the enumeration.
- Nearest.FindNearestRoadPoint: `Dist2` is an unbounded integer. In the source, `(rx - x) ** 2` is NumPy 64-bit arithmetic, so a caller's start point more than about 3.04 * 10^9 pixels from a skeleton pixel makes it wrap around; the source then picks a wrong pixel or `math.sqrt` raises `ValueError`, and a coordinate beyond 2^63 raises `OverflowError`. None of this is modelled.
- Other coordinates and counts are unbounded integers. They are pixel indices and lengths of an image in memory, and stay far below 2^63.
