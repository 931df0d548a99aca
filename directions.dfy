/** Direction scoring: every kept branch votes, through the angle from the start point to
    its last point, for the compass directions within 45 degrees of that angle; the votes
    are then rescaled so that the best direction scores 1. Angles are in image
    coordinates (y grows downward), so North is -pi/2. */
module Directions {
  import opened Grids

  /** The eight compass directions, in the order the enumeration declares them. */
  datatype Direction = North | South | East | West | Northeast | Northwest | Southeast | Southwest

  /** Iterating over the enumeration visits the directions in declaration order. */
  const AllDirections: seq<Direction> := [North, South, East, West, Northeast, Northwest, Southeast, Southwest]

  /** The position of `d` in the enumeration. */
  function Index(d: Direction): (i: nat)
    ensures i < |AllDirections| && AllDirections[i] == d
  {
    match d
    case North => 0
    case South => 1
    case East => 2
    case West => 3
    case Northeast => 4
    case Northwest => 5
    case Southeast => 6
    case Southwest => 7
  }

  /** The enumeration lists every direction. */
  lemma AllListed()
    ensures forall d: Direction :: d in AllDirections
  {
    forall d: Direction ensures d in AllDirections {
      assert AllDirections[Index(d)] == d;
    }
  }

  /** Every direction occurs exactly once in the enumeration. */
  lemma IndexInverse(i: nat)
    requires i < |AllDirections|
    ensures Index(AllDirections[i]) == i
  {
  }

  /** `math.pi` as the real written by its shortest decimal, 3.141592653589793. The double
      itself is 3.141592653589793115997963...; the difference, below 10^-16, is not modelled. */
  const Pi: real := 3.141592653589793

  /** What `math.atan2` returns: an angle in [-pi, pi]. */
  type Angle = a: real | -Pi <= a <= Pi witness 0.0

  /** What `math.sqrt` returns. */
  type NonNegReal = r: real | 0.0 <= r witness 0.0

  function AbsR(r: real): real {
    if r < 0.0 then -r else r
  }

  function MaxR(a: real, b: real): (m: real)
    ensures m >= a && m >= b && (m == a || m == b)
  {
    if a >= b then a else b
  }

  /** `_direction_to_angle`: East is 0 and the angles grow clockwise on screen, in steps of
      pi/4. Every angle lies in the range of `atan2` that `_normalize_angle` targets. */
  function DirectionToAngle(d: Direction): (a: real)
    ensures -Pi < a <= Pi
  {
    match d
    case East => 0.0
    case Northeast => -Pi / 4.0
    case North => -Pi / 2.0
    case Northwest => -3.0 * Pi / 4.0
    case West => Pi
    case Southwest => 3.0 * Pi / 4.0
    case South => Pi / 2.0
    case Southeast => Pi / 4.0
  }

  /** The direction whose angle is nearest to `a`, for `a` in [-pi, pi]: the sector of
      width pi/4 centred on the direction's angle (West takes both ends). */
  function ClosestDirection(a: real): (d: Direction)
    requires -Pi <= a <= Pi
    ensures AngleDiff(a - DirectionToAngle(d)) <= Pi / 8.0
  {
    if a < -7.0 * Pi / 8.0 then
      WrapUpOnce(a - Pi);
      West
    else if a < -5.0 * Pi / 8.0 then Northwest
    else if a < -3.0 * Pi / 8.0 then North
    else if a < -Pi / 8.0 then Northeast
    else if a < Pi / 8.0 then East
    else if a < 3.0 * Pi / 8.0 then Southeast
    else if a < 5.0 * Pi / 8.0 then South
    else if a < 7.0 * Pi / 8.0 then Southwest
    else West
  }

  /** The angle table and the sectors agree: each direction's own angle lies in its sector,
      so no two directions share an angle. */
  lemma ClosestDirectionInverse(d: Direction)
    ensures ClosestDirection(DirectionToAngle(d)) == d
  {
  }

  /** The first `while` of `_normalize_angle`: subtract 2pi while the angle exceeds pi. */
  function WrapDown(x: real): (r: real)
    ensures r <= Pi
    ensures x <= Pi ==> r == x
    ensures x > Pi ==> r > -Pi
    decreases if x > Pi then (x - Pi).Floor + 1 else 0
  {
    if x > Pi then WrapDown(x - 2.0 * Pi) else x
  }

  /** The second `while`: add 2pi while the angle is below -pi. */
  function WrapUp(x: real): (r: real)
    ensures r >= -Pi
    ensures x >= -Pi ==> r == x
    ensures x < -Pi ==> r < Pi
    decreases if x < -Pi then (-Pi - x).Floor + 1 else 0
  {
    if x < -Pi then WrapUp(x + 2.0 * Pi) else x
  }

  /** The angle folded into [-pi, pi]. */
  function Wrap(x: real): (r: real)
    ensures -Pi <= r <= Pi
    ensures -Pi <= x <= Pi ==> r == x
  {
    WrapUp(WrapDown(x))
  }

  /** The value `_normalize_angle` returns: how far `x` is from the nearest multiple of 2pi. */
  function AngleDiff(x: real): (r: real)
    ensures 0.0 <= r <= Pi
  {
    AbsR(Wrap(x))
  }

  /** One step of the second loop when the angle lies in [-3pi, -pi). */
  lemma WrapUpOnce(x: real)
    requires -3.0 * Pi <= x < -Pi
    ensures Wrap(x) == x + 2.0 * Pi
  {
  }

  /** Angles that differ by a whole turn have the same normalized value. */
  lemma {:induction false} AngleDiffPeriodic(x: real)
    ensures AngleDiff(x + 2.0 * Pi) == AngleDiff(x)
  {
    if x > -Pi {
      assert WrapDown(x + 2.0 * Pi) == WrapDown(x);
    } else if x < -Pi {
      assert WrapUp(x) == WrapUp(x + 2.0 * Pi);
    }
  }

  /** `_normalize_angle`: two `while` loops bring the angle into [-pi, pi]; the result is
      its absolute value. */
  method NormalizeAngle(angle: real) returns (r: real)
    ensures r == AngleDiff(angle)
    ensures 0.0 <= r <= Pi
  {
    var a := angle;
    while a > Pi
      invariant WrapDown(a) == WrapDown(angle)
      decreases (a - Pi).Floor + 1
    {
      a := a - 2.0 * Pi;
    }
    var b := a;
    while b < -Pi
      invariant WrapUp(b) == WrapUp(a)
      decreases (-Pi - b).Floor + 1
    {
      b := b + 2.0 * Pi;
    }
    r := AbsR(b);
  }

  /** Every heading lies within pi/8, and so strictly within the pi/4 window, of some direction. */
  lemma EveryHeadingAligned(a: real)
    requires -Pi <= a <= Pi
    ensures exists d :: AngleDiff(a - DirectionToAngle(d)) < Pi / 4.0
  {
    var d := ClosestDirection(a);
    assert AngleDiff(a - DirectionToAngle(d)) < Pi / 4.0;
  }

  /** The angle from `start` to the last point of branch `b`: `atan2(dy, dx)`. */
  function Heading(atan2: (real, real) -> Angle, b: seq<Point>, start: Point): Angle
    requires |b| >= 1
  {
    var last := b[|b| - 1];
    atan2((last.y - start.y) as real, (last.x - start.x) as real)
  }

  /** The distance from `start` to the last point of branch `b`. */
  function Distance(sqrt: real -> NonNegReal, b: seq<Point>, start: Point): NonNegReal
    requires |b| >= 1
  {
    var last := b[|b| - 1];
    var dx, dy := last.x - start.x, last.y - start.y;
    sqrt((dx * dx + dy * dy) as real)
  }

  /** The decay with distance: 1 at the start point, halved 100 pixels away. */
  function Weight(distance: real): (wt: real)
    requires distance >= 0.0
    ensures 0.0 < wt <= 1.0
  {
    1.0 / (1.0 + distance / 100.0)
  }

  /** Branch `b` votes for direction `d`: its heading is within pi/4 of the direction's angle. */
  predicate Aligned(atan2: (real, real) -> Angle, b: seq<Point>, start: Point, d: Direction)
    requires |b| >= 1
  {
    AngleDiff(Heading(atan2, b, start) - DirectionToAngle(d)) < Pi / 4.0
  }

  /** The vote of branch `b` for direction `d`: closeness of the angles, times the weight,
      times the branch length over the minimum length. */
  function Contribution(atan2: (real, real) -> Angle, sqrt: real -> NonNegReal, b: seq<Point>,
                        start: Point, minLen: int, d: Direction): real
    requires |b| >= 1 && minLen != 0
  {
    Vote(AngleDiff(Heading(atan2, b, start) - DirectionToAngle(d)), Weight(Distance(sqrt, b, start)), |b|, minLen)
  }

  /** `(1 - angle_diff / (pi / 4)) * weight * (length / min_branch_length)`. */
  function Vote(angleDiff: real, wt: real, len: nat, minLen: int): real
    requires minLen != 0
  {
    (1.0 - angleDiff / (Pi / 4.0)) * wt * (len as real / minLen as real)
  }

  predicate NonEmptyBranches(bs: seq<seq<Point>>) {
    forall k :: 0 <= k < |bs| ==> |bs[k]| >= 1
  }

  /** The raw score of `d` after the branches `bs`: the largest vote of an aligned branch,
      and 0 if none votes more. */
  function Score(atan2: (real, real) -> Angle, sqrt: real -> NonNegReal, bs: seq<seq<Point>>,
                 start: Point, minLen: int, d: Direction): (s: real)
    requires (minLen != 0 || bs == []) && NonEmptyBranches(bs)
    ensures s >= 0.0
    decreases |bs|
  {
    if bs == [] then 0.0
    else
      var prev := Score(atan2, sqrt, bs[..|bs| - 1], start, minLen, d);
      var b := bs[|bs| - 1];
      if Aligned(atan2, b, start, d) then MaxR(prev, Contribution(atan2, sqrt, b, start, minLen, d)) else prev
  }

  /** The raw scores of all eight directions. */
  function Scores(atan2: (real, real) -> Angle, sqrt: real -> NonNegReal, bs: seq<seq<Point>>,
                  start: Point, minLen: int): (m: map<Direction, real>)
    requires (minLen != 0 || bs == []) && NonEmptyBranches(bs)
    ensures forall d: Direction :: d in m && m[d] == Score(atan2, sqrt, bs, start, minLen, d)
  {
    AllListed();
    map d: Direction | d in AllDirections :: Score(atan2, sqrt, bs, start, minLen, d)
  }

  /** `max(directions.values())` over the first `n` directions of the enumeration. */
  function MaxOver(m: map<Direction, real>, n: nat): (mx: real)
    requires 1 <= n <= |AllDirections| && forall d: Direction :: d in m
    ensures forall k :: 0 <= k < n ==> m[AllDirections[k]] <= mx
    ensures exists k :: 0 <= k < n && m[AllDirections[k]] == mx
  {
    if n == 1 then m[AllDirections[0]]
    else MaxR(MaxOver(m, n - 1), m[AllDirections[n - 1]])
  }

  /** The largest score of all eight directions. */
  function MaxScore(m: map<Direction, real>): (mx: real)
    requires forall d: Direction :: d in m
    ensures forall d: Direction :: m[d] <= mx
    ensures exists d: Direction :: m[d] == mx
  {
    var mx := MaxOver(m, |AllDirections|);
    assert forall d: Direction :: m[d] <= mx by {
      forall d: Direction ensures m[d] <= mx {
        assert m[AllDirections[Index(d)]] <= mx;
      }
    }
    mx
  }

  /** The final step: divide every score by the maximum when the maximum is positive. */
  function Rescale(m: map<Direction, real>): (r: map<Direction, real>)
    requires forall d: Direction :: d in m
    ensures forall d: Direction :: d in r
  {
    var mx := MaxScore(m);
    if mx > 0.0 then map d: Direction | d in m :: m[d] / mx else m
  }

  /** Rescaled scores lie in [0, 1]; the best is exactly 1 when any score was positive,
      and when none was, all scores are left as they were. */
  lemma RescaleSpec(m: map<Direction, real>)
    requires forall d: Direction :: d in m && m[d] >= 0.0
    ensures forall d: Direction :: 0.0 <= Rescale(m)[d] <= 1.0
    ensures (exists d: Direction :: m[d] > 0.0) ==> exists d: Direction :: Rescale(m)[d] == 1.0
    ensures (forall d: Direction :: m[d] == 0.0) ==> Rescale(m) == m
  {
    var mx := MaxScore(m);
    if mx > 0.0 {
      var r := Rescale(m);
      forall d: Direction ensures 0.0 <= r[d] <= 1.0 {
        assert r[d] == m[d] / mx;
        assert m[d] <= mx;
        RatioBounds(m[d], mx);
      }
      var top :| m[top] == mx;
      assert r[top] == m[top] / mx;
      RatioBounds(m[top], mx);
    } else {
      forall d: Direction ensures m[d] == 0.0 {
        assert m[d] <= mx;
      }
    }
  }

  lemma RatioBounds(a: real, mx: real)
    requires 0.0 <= a <= mx && mx > 0.0
    ensures 0.0 <= a / mx <= 1.0
    ensures a > 0.0 ==> a / mx > 0.0
    ensures a == mx ==> a / mx == 1.0
  {
  }

  /** The sign of a vote: the closeness factor and the weight are positive, so the vote has
      the sign of the minimum length. */
  lemma VoteSign(angleDiff: real, wt: real, len: nat, minLen: int)
    requires 0.0 <= angleDiff < Pi / 4.0 && wt > 0.0 && len >= 1 && minLen != 0
    ensures minLen > 0 ==> Vote(angleDiff, wt, len, minLen) > 0.0
    ensures minLen < 0 ==> Vote(angleDiff, wt, len, minLen) < 0.0
  {
    var closeness := 1.0 - angleDiff / (Pi / 4.0);
    assert angleDiff / (Pi / 4.0) < 1.0;
    var ratio := len as real / minLen as real;
    assert closeness * wt > 0.0;
    if minLen > 0 {
      assert ratio > 0.0;
    } else {
      assert ratio < 0.0;
    }
  }

  /** With a positive minimum length an aligned branch votes a positive amount; with a
      negative one every vote is negative. */
  lemma ContributionSign(atan2: (real, real) -> Angle, sqrt: real -> NonNegReal, b: seq<Point>,
                         start: Point, minLen: int, d: Direction)
    requires |b| >= 1 && minLen != 0 && Aligned(atan2, b, start, d)
    ensures minLen > 0 ==> Contribution(atan2, sqrt, b, start, minLen, d) > 0.0
    ensures minLen < 0 ==> Contribution(atan2, sqrt, b, start, minLen, d) < 0.0
  {
    VoteSign(AngleDiff(Heading(atan2, b, start) - DirectionToAngle(d)), Weight(Distance(sqrt, b, start)), |b|, minLen);
  }

  /** With a positive minimum length, a direction scores above 0 exactly when some branch
      is aligned with it. */
  lemma {:induction false} ScorePositive(atan2: (real, real) -> Angle, sqrt: real -> NonNegReal,
                                         bs: seq<seq<Point>>, start: Point, minLen: int, d: Direction)
    requires minLen > 0 && NonEmptyBranches(bs)
    ensures Score(atan2, sqrt, bs, start, minLen, d) > 0.0
      <==> exists k :: 0 <= k < |bs| && Aligned(atan2, bs[k], start, d)
    decreases |bs|
  {
    if bs != [] {
      var init, b := bs[..|bs| - 1], bs[|bs| - 1];
      ScorePositive(atan2, sqrt, init, start, minLen, d);
      if Aligned(atan2, b, start, d) {
        ContributionSign(atan2, sqrt, b, start, minLen, d);
      }
      if exists k :: 0 <= k < |bs| && Aligned(atan2, bs[k], start, d) {
        var k :| 0 <= k < |bs| && Aligned(atan2, bs[k], start, d);
        if k < |bs| - 1 {
          assert init[k] == bs[k];
        }
      }
      if exists k :: 0 <= k < |init| && Aligned(atan2, init[k], start, d) {
        var k :| 0 <= k < |init| && Aligned(atan2, init[k], start, d);
        assert bs[k] == init[k];
      }
    }
  }

  /** With a negative minimum length every vote is negative and loses to the initial 0. */
  lemma {:induction false} ScoreNegativeMinimum(atan2: (real, real) -> Angle, sqrt: real -> NonNegReal,
                                                bs: seq<seq<Point>>, start: Point, minLen: int, d: Direction)
    requires minLen < 0 && NonEmptyBranches(bs)
    ensures Score(atan2, sqrt, bs, start, minLen, d) == 0.0
    decreases |bs|
  {
    if bs != [] {
      var init, b := bs[..|bs| - 1], bs[|bs| - 1];
      ScoreNegativeMinimum(atan2, sqrt, init, start, minLen, d);
      if Aligned(atan2, b, start, d) {
        ContributionSign(atan2, sqrt, b, start, minLen, d);
      }
    }
  }

  /** Every branch is aligned with some direction. */
  lemma BranchAligned(atan2: (real, real) -> Angle, b: seq<Point>, start: Point)
    requires |b| >= 1
    ensures Aligned(atan2, b, start, ClosestDirection(Heading(atan2, b, start)))
  {
  }

  /** The result of `_analyze_directions`: the rescaled raw scores. */
  function Analysis(atan2: (real, real) -> Angle, sqrt: real -> NonNegReal, bs: seq<seq<Point>>,
                    start: Point, minLen: int): (r: map<Direction, real>)
    requires (minLen != 0 || bs == []) && NonEmptyBranches(bs)
    ensures forall d: Direction :: d in r && 0.0 <= r[d] <= 1.0
  {
    var m := Scores(atan2, sqrt, bs, start, minLen);
    RescaleSpec(m);
    Rescale(m)
  }

  /** Rescaling keeps a score positive exactly when it was positive. */
  lemma RescalePositive(m: map<Direction, real>, d: Direction)
    requires forall d': Direction :: d' in m && m[d'] >= 0.0
    ensures Rescale(m)[d] > 0.0 <==> m[d] > 0.0
  {
    var mx := MaxScore(m);
    if mx > 0.0 {
      assert Rescale(m)[d] == m[d] / mx;
      RatioBounds(m[d], mx);
    }
  }

  /** With a positive minimum length a direction ends up above 0 exactly when some branch is
      aligned with it. */
  lemma AnalysisPositive(atan2: (real, real) -> Angle, sqrt: real -> NonNegReal, bs: seq<seq<Point>>,
                         start: Point, minLen: int, d: Direction)
    requires minLen > 0 && NonEmptyBranches(bs)
    ensures Analysis(atan2, sqrt, bs, start, minLen)[d] > 0.0
      <==> exists k :: 0 <= k < |bs| && Aligned(atan2, bs[k], start, d)
  {
    var m := Scores(atan2, sqrt, bs, start, minLen);
    RescalePositive(m, d);
    ScorePositive(atan2, sqrt, bs, start, minLen, d);
  }

  /** With a positive minimum length and at least one branch the best direction scores
      exactly 1: the first branch is aligned with the direction closest to its heading. */
  lemma AnalysisTop(atan2: (real, real) -> Angle, sqrt: real -> NonNegReal, bs: seq<seq<Point>>,
                    start: Point, minLen: int)
    requires minLen > 0 && NonEmptyBranches(bs) && bs != []
    ensures exists top: Direction :: Analysis(atan2, sqrt, bs, start, minLen)[top] == 1.0
  {
    var m := Scores(atan2, sqrt, bs, start, minLen);
    var top := ClosestDirection(Heading(atan2, bs[0], start));
    BranchAligned(atan2, bs[0], start);
    ScorePositive(atan2, sqrt, bs, start, minLen, top);
    assert m[top] > 0.0;
    RescaleSpec(m);
    var best :| Rescale(m)[best] == 1.0;
    assert Analysis(atan2, sqrt, bs, start, minLen) == Rescale(m);
    assert Analysis(atan2, sqrt, bs, start, minLen)[best] == 1.0;
  }

  /** Without branches, or with a negative minimum length, all eight scores stay 0. */
  lemma AnalysisZero(atan2: (real, real) -> Angle, sqrt: real -> NonNegReal, bs: seq<seq<Point>>,
                     start: Point, minLen: int, d: Direction)
    requires NonEmptyBranches(bs)
    requires minLen < 0 || bs == []
    ensures Analysis(atan2, sqrt, bs, start, minLen)[d] == 0.0
  {
    var m := Scores(atan2, sqrt, bs, start, minLen);
    forall d': Direction ensures m[d'] == 0.0 {
      if minLen < 0 {
        ScoreNegativeMinimum(atan2, sqrt, bs, start, minLen, d');
      }
    }
    RescaleSpec(m);
  }

  /** The score of `d` after the first `i` branches. */
  function ScoreUpTo(atan2: (real, real) -> Angle, sqrt: real -> NonNegReal, branches: seq<seq<Point>>,
                     start: Point, minLen: int, i: nat, d: Direction): real
    requires i <= |branches| && (minLen != 0 || i == 0) && NonEmptyBranches(branches)
  {
    assert NonEmptyBranches(branches[..i]) by {
      forall k | 0 <= k < i ensures |branches[..i][k]| >= 1 {
        assert branches[..i][k] == branches[k];
      }
    }
    Score(atan2, sqrt, branches[..i], start, minLen, d)
  }

  /** The scores while branch `i` is being scored: the directions before position `j` of
      the enumeration already count branch `i`, the others count only the branches before it. */
  ghost predicate Midway(directions: map<Direction, real>, atan2: (real, real) -> Angle, sqrt: real -> NonNegReal,
                         branches: seq<seq<Point>>, start: Point, minLen: int, i: nat, j: nat)
    requires minLen != 0 && NonEmptyBranches(branches) && i < |branches|
  {
    forall d: Direction :: d in directions
      && directions[d] == (if Index(d) < j then ScoreUpTo(atan2, sqrt, branches, start, minLen, i + 1, d)
                           else ScoreUpTo(atan2, sqrt, branches, start, minLen, i, d))
  }

  /** Branch `i` voted for the direction at position `j`: only that direction's score changes. */
  lemma DirectionVoted(directions: map<Direction, real>, atan2: (real, real) -> Angle, sqrt: real -> NonNegReal,
                       branches: seq<seq<Point>>, start: Point, minLen: int, i: nat, j: nat, score: real)
    requires minLen != 0 && NonEmptyBranches(branches) && i < |branches| && j < |AllDirections|
    requires Midway(directions, atan2, sqrt, branches, start, minLen, i, j)
    requires Aligned(atan2, branches[i], start, AllDirections[j])
    requires score == Contribution(atan2, sqrt, branches[i], start, minLen, AllDirections[j])
    ensures Midway(directions[AllDirections[j] := MaxR(directions[AllDirections[j]], score)],
                   atan2, sqrt, branches, start, minLen, i, j + 1)
  {
    IndexInverse(j);
    var dj := AllDirections[j];
    ScoreStep(atan2, sqrt, branches, start, minLen, i, dj);
  }

  /** Branch `i` did not vote for the direction at position `j`: no score changes. */
  lemma DirectionSkipped(directions: map<Direction, real>, atan2: (real, real) -> Angle, sqrt: real -> NonNegReal,
                         branches: seq<seq<Point>>, start: Point, minLen: int, i: nat, j: nat)
    requires minLen != 0 && NonEmptyBranches(branches) && i < |branches| && j < |AllDirections|
    requires Midway(directions, atan2, sqrt, branches, start, minLen, i, j)
    requires !Aligned(atan2, branches[i], start, AllDirections[j])
    ensures Midway(directions, atan2, sqrt, branches, start, minLen, i, j + 1)
  {
    IndexInverse(j);
    ScoreStep(atan2, sqrt, branches, start, minLen, i, AllDirections[j]);
  }

  /** The score of `d` after one more branch. */
  lemma ScoreStep(atan2: (real, real) -> Angle, sqrt: real -> NonNegReal, branches: seq<seq<Point>>,
                  start: Point, minLen: int, i: nat, d: Direction)
    requires minLen != 0 && NonEmptyBranches(branches) && i < |branches|
    ensures ScoreUpTo(atan2, sqrt, branches, start, minLen, i + 1, d)
      == if Aligned(atan2, branches[i], start, d)
         then MaxR(ScoreUpTo(atan2, sqrt, branches, start, minLen, i, d), Contribution(atan2, sqrt, branches[i], start, minLen, d))
         else ScoreUpTo(atan2, sqrt, branches, start, minLen, i, d)
  {
    var bs := branches[..i + 1];
    assert bs[..|bs| - 1] == branches[..i] && bs[|bs| - 1] == branches[i];
    assert NonEmptyBranches(bs);
  }

  /** A direction scored for every branch before position `i` and for branch `i` too. */
  lemma BranchDone(directions: map<Direction, real>, atan2: (real, real) -> Angle, sqrt: real -> NonNegReal,
                   branches: seq<seq<Point>>, start: Point, minLen: int, i: nat)
    requires minLen != 0 && NonEmptyBranches(branches) && i < |branches|
    requires Midway(directions, atan2, sqrt, branches, start, minLen, i, |AllDirections|)
    ensures forall d: Direction :: d in directions && directions[d] == ScoreUpTo(atan2, sqrt, branches, start, minLen, i + 1, d)
  {
  }

  /** Before branch `i` is scored, every direction counts only the branches before it. */
  lemma BranchStart(directions: map<Direction, real>, atan2: (real, real) -> Angle, sqrt: real -> NonNegReal,
                    branches: seq<seq<Point>>, start: Point, minLen: int, i: nat)
    requires minLen != 0 && NonEmptyBranches(branches) && i < |branches|
    requires forall d: Direction :: d in directions && directions[d] == ScoreUpTo(atan2, sqrt, branches, start, minLen, i, d)
    ensures Midway(directions, atan2, sqrt, branches, start, minLen, i, 0)
  {
  }

  /** The vote the loop computes from the heading's angle difference and the weight is the
      branch's contribution. */
  lemma ContributionIs(atan2: (real, real) -> Angle, sqrt: real -> NonNegReal, b: seq<Point>, start: Point,
                       minLen: int, d: Direction, angleDiff: real, weight: real, score: real)
    requires |b| >= 1 && minLen != 0
    requires angleDiff == AngleDiff(Heading(atan2, b, start) - DirectionToAngle(d))
    requires weight == Weight(Distance(sqrt, b, start))
    requires score == Vote(angleDiff, weight, |b|, minLen)
    ensures score == Contribution(atan2, sqrt, b, start, minLen, d)
  {
  }

  /** None of the first `j` directions of the enumeration is aligned with branch `b`. */
  ghost predicate NoneAlignedBefore(atan2: (real, real) -> Angle, b: seq<Point>, start: Point, j: nat)
    requires |b| >= 1 && j <= |AllDirections|
  {
    forall k :: 0 <= k < j ==> !Aligned(atan2, b, start, AllDirections[k])
  }

  /** Every branch is aligned with one of the eight directions. */
  lemma SomeDirectionAligned(atan2: (real, real) -> Angle, b: seq<Point>, start: Point)
    requires |b| >= 1
    ensures exists k :: 0 <= k < |AllDirections| && Aligned(atan2, b, start, AllDirections[k])
  {
    var d := ClosestDirection(Heading(atan2, b, start));
    BranchAligned(atan2, b, start);
    assert AllDirections[Index(d)] == d;
  }

  /** Scores for all branches that agree with `Score` in every direction are `Scores`. */
  lemma ScoresComplete(directions: map<Direction, real>, atan2: (real, real) -> Angle, sqrt: real -> NonNegReal,
                       branches: seq<seq<Point>>, start: Point, minLen: int)
    requires (minLen != 0 || branches == []) && NonEmptyBranches(branches)
    requires forall d: Direction ::
      d in directions && directions[d] == ScoreUpTo(atan2, sqrt, branches, start, minLen, |branches|, d)
    ensures directions == Scores(atan2, sqrt, branches, start, minLen)
  {
    assert branches[..|branches|] == branches;
  }

  lemma RescaleUnfold(m: map<Direction, real>)
    requires forall d: Direction :: d in m
    ensures Rescale(m) == if MaxScore(m) > 0.0 then map d: Direction | d in m :: m[d] / MaxScore(m) else m
  {
  }

  /** The loop body of `_analyze_directions` for branch `i`: its heading, weight and length,
      then a vote for each aligned direction, in enumeration order. The first vote divides
      by the minimum length, so a minimum length of 0 fails here (`None`); every branch is
      aligned with some direction, so it always does. */
  method ScoreBranch(atan2: (real, real) -> Angle, sqrt: real -> NonNegReal, branches: seq<seq<Point>>,
                     start: Point, minLen: int, i: nat, directions: map<Direction, real>)
    returns (r: Option<map<Direction, real>>)
    requires NonEmptyBranches(branches) && i < |branches| && (minLen != 0 || i == 0)
    requires forall d: Direction :: d in directions && directions[d] == ScoreUpTo(atan2, sqrt, branches, start, minLen, i, d)
    ensures r.None? <==> minLen == 0
    ensures r.Some? ==> forall d: Direction :: d in r.value && r.value[d] == ScoreUpTo(atan2, sqrt, branches, start, minLen, i + 1, d)
  {
    var branch := branches[i];
    var last := branch[|branch| - 1];
    var dx, dy := last.x - start.x, last.y - start.y;
    var angle := atan2(dy as real, dx as real);
    var length := |branch|;
    var distance := sqrt((dx * dx + dy * dy) as real);
    var weight := Weight(distance);
    assert angle == Heading(atan2, branch, start);
    assert distance == Distance(sqrt, branch, start);
    if minLen != 0 {
      BranchStart(directions, atan2, sqrt, branches, start, minLen, i);
    }
    var scores := directions;
    for j := 0 to |AllDirections|
      invariant minLen != 0 ==> Midway(scores, atan2, sqrt, branches, start, minLen, i, j)
      invariant minLen == 0 ==> NoneAlignedBefore(atan2, branch, start, j)
    {
      var direction := AllDirections[j];
      var directionAngle := DirectionToAngle(direction);
      var normalized := NormalizeAngle(angle - directionAngle);
      var angleDiff := AbsR(normalized);
      assert angleDiff == AngleDiff(Heading(atan2, branch, start) - DirectionToAngle(direction));
      if angleDiff < Pi / 4.0 {
        if minLen == 0 {
          return None;
        }
        var score := Vote(angleDiff, weight, length, minLen);
        ContributionIs(atan2, sqrt, branch, start, minLen, direction, angleDiff, weight, score);
        DirectionVoted(scores, atan2, sqrt, branches, start, minLen, i, j, score);
        scores := scores[direction := MaxR(scores[direction], score)];
      } else if minLen != 0 {
        DirectionSkipped(scores, atan2, sqrt, branches, start, minLen, i, j);
      }
    }
    if minLen == 0 {
      SomeDirectionAligned(atan2, branch, start);
      assert false;
    }
    BranchDone(scores, atan2, sqrt, branches, start, minLen, i);
    r := Some(scores);
  }

  /** `_analyze_directions`: every branch votes for each direction within pi/4 of its
      heading, each direction keeps its largest vote, and the scores are divided by the
      largest one when it is positive. A minimum length of 0 makes the first vote divide
      by zero, which the source raises as an error: the result is then `None`. */
  method AnalyzeDirections(atan2: (real, real) -> Angle, sqrt: real -> NonNegReal, branches: seq<seq<Point>>,
                           start: Point, minLen: int)
    returns (r: Option<map<Direction, real>>)
    requires NonEmptyBranches(branches)
    ensures r.None? <==> minLen == 0 && branches != []
    ensures r.Some? ==> r.value == Analysis(atan2, sqrt, branches, start, minLen)
  {
    AllListed();
    var directions := map d: Direction | d in AllDirections :: 0.0;
    for i := 0 to |branches|
      invariant i > 0 ==> minLen != 0
      invariant forall d: Direction :: d in directions && directions[d] == ScoreUpTo(atan2, sqrt, branches, start, minLen, i, d)
    {
      var scored := ScoreBranch(atan2, sqrt, branches, start, minLen, i, directions);
      if scored.None? {
        return None;
      }
      directions := scored.value;
    }
    ScoresComplete(directions, atan2, sqrt, branches, start, minLen);
    RescaleUnfold(directions);
    var maxScore := MaxScore(directions);
    if maxScore > 0.0 {
      directions := map d: Direction | d in directions :: directions[d] / maxScore;
    }
    r := Some(directions);
  }
}
