/** The three shipped fan curves (crates/fw-helper-core/src/profile.rs). */
module ProfileCurves {
  import opened Prelude
  import opened Curve

  const QUIET: seq<Point> :=
    [Point(55.0, 0), Point(62.0, 40), Point(70.0, 65), Point(80.0, 92), Point(90.0, 130), Point(100.0, 255)]

  const BALANCED: seq<Point> :=
    [Point(50.0, 0), Point(60.0, 45), Point(68.0, 72), Point(78.0, 100), Point(88.0, 145), Point(100.0, 255)]

  const PERFORMANCE: seq<Point> :=
    [Point(45.0, 0), Point(55.0, 50), Point(65.0, 85), Point(75.0, 120), Point(85.0, 170), Point(95.0, 255)]

  /** The points from `i` on, checked one at a time. */
  predicate PointsOk(points: seq<Point>, i: nat)
    decreases |points| - i
  {
    i < |points| ==>
      && 0.0 <= points[i].celsius <= HOTTEST_C && LegalDuty(points[i].duty)
      && (i > 0 ==> points[i - 1].celsius < points[i].celsius && points[i - 1].duty <= points[i].duty)
      && PointsOk(points, i + 1)
  }

  lemma PointOk(points: seq<Point>, k: nat, i: nat)
    requires k <= i < |points| && PointsOk(points, k)
    ensures 0.0 <= points[i].celsius <= HOTTEST_C && LegalDuty(points[i].duty)
    ensures i > 0 ==> points[i - 1].celsius < points[i].celsius && points[i - 1].duty <= points[i].duty
    decreases i - k
  {
    if k == i {
    } else {
      PointOk(points, k + 1, i);
    }
  }

  lemma PointsOkSuffices(points: seq<Point>)
    requires |points| >= 2 && PointsOk(points, 0)
    ensures Valid(points)
  {
    forall i | 0 <= i < |points| { PointOk(points, 0, i); }
  }

  lemma BuiltInsAreValid()
    ensures Valid(QUIET) && Valid(BALANCED) && Valid(PERFORMANCE)
  {
    PointsOkSuffices(QUIET);
    PointsOkSuffices(BALANCED);
    PointsOkSuffices(PERFORMANCE);
  }

  /** Where a temperature falls on a curve, given the two points around it. */
  lemma At(points: seq<Point>, k: nat, a: Point, b: Point, celsius: real)
    requires Valid(points) && 0 < k < |points| && points[k - 1] == a && points[k] == b
    requires a.celsius <= celsius <= b.celsius
    ensures a.celsius < b.celsius
    ensures ExactAt(points, celsius) == Between(a.celsius, a.duty as real, b.celsius, b.duty as real, celsius)
  {
    ExactOnSegment(points, celsius, k);
  }

  lemma QuietPointsOnBalanced(b: seq<Point>)
    requires Valid(b) && b == BALANCED
    ensures ExactAt(b, 55.0) >= 0.0 && ExactAt(b, 62.0) >= 40.0 && ExactAt(b, 70.0) >= 65.0
    ensures ExactAt(b, 80.0) >= 92.0 && ExactAt(b, 90.0) >= 130.0 && ExactAt(b, 100.0) >= 255.0
  {
    At(b, 1, Point(50.0, 0), Point(60.0, 45), 55.0);
    At(b, 2, Point(60.0, 45), Point(68.0, 72), 62.0);
    At(b, 3, Point(68.0, 72), Point(78.0, 100), 70.0);
    At(b, 4, Point(78.0, 100), Point(88.0, 145), 80.0);
    At(b, 5, Point(88.0, 145), Point(100.0, 255), 90.0);
    At(b, 5, Point(88.0, 145), Point(100.0, 255), 100.0);
  }

  lemma BalancedPointsOnQuiet(q: seq<Point>)
    requires Valid(q) && q == QUIET
    ensures ExactAt(q, 50.0) <= 0.0 && ExactAt(q, 60.0) <= 45.0 && ExactAt(q, 68.0) <= 72.0
    ensures ExactAt(q, 78.0) <= 100.0 && ExactAt(q, 88.0) <= 145.0 && ExactAt(q, 100.0) <= 255.0
  {
    At(q, 1, Point(55.0, 0), Point(62.0, 40), 60.0);
    At(q, 2, Point(62.0, 40), Point(70.0, 65), 68.0);
    At(q, 3, Point(70.0, 65), Point(80.0, 92), 78.0);
    At(q, 4, Point(80.0, 92), Point(90.0, 130), 88.0);
    At(q, 5, Point(90.0, 130), Point(100.0, 255), 100.0);
  }

  lemma BalancedPointsOnPerformance(p: seq<Point>)
    requires Valid(p) && p == PERFORMANCE
    ensures ExactAt(p, 50.0) >= 0.0 && ExactAt(p, 60.0) >= 45.0 && ExactAt(p, 68.0) >= 72.0
    ensures ExactAt(p, 78.0) >= 100.0 && ExactAt(p, 88.0) >= 145.0 && ExactAt(p, 100.0) >= 255.0
  {
    At(p, 1, Point(45.0, 0), Point(55.0, 50), 50.0);
    At(p, 2, Point(55.0, 50), Point(65.0, 85), 60.0);
    At(p, 3, Point(65.0, 85), Point(75.0, 120), 68.0);
    At(p, 4, Point(75.0, 120), Point(85.0, 170), 78.0);
    At(p, 5, Point(85.0, 170), Point(95.0, 255), 88.0);
  }

  lemma PerformancePointsOnBalanced(b: seq<Point>)
    requires Valid(b) && b == BALANCED
    ensures ExactAt(b, 45.0) <= 0.0 && ExactAt(b, 55.0) <= 50.0 && ExactAt(b, 65.0) <= 85.0
    ensures ExactAt(b, 75.0) <= 120.0 && ExactAt(b, 85.0) <= 170.0 && ExactAt(b, 95.0) <= 255.0
  {
    At(b, 1, Point(50.0, 0), Point(60.0, 45), 55.0);
    At(b, 2, Point(60.0, 45), Point(68.0, 72), 65.0);
    At(b, 3, Point(68.0, 72), Point(78.0, 100), 75.0);
    At(b, 4, Point(78.0, 100), Point(88.0, 145), 85.0);
    At(b, 5, Point(88.0, 145), Point(100.0, 255), 95.0);
  }

  lemma QuietBelowBalanced()
    requires Valid(QUIET) && Valid(BALANCED)
    ensures BelowAtBreakpoints(QUIET, BALANCED)
  {
    QuietPointsOnBalanced(BALANCED);
    BalancedPointsOnQuiet(QUIET);
    hide Valid, ExactAt;
  }

  lemma BalancedBelowPerformance()
    requires Valid(BALANCED) && Valid(PERFORMANCE)
    ensures BelowAtBreakpoints(BALANCED, PERFORMANCE)
  {
    BalancedPointsOnPerformance(PERFORMANCE);
    PerformancePointsOnBalanced(BALANCED);
    hide Valid, ExactAt;
  }

  /** A louder profile never asks for less air: quiet, balanced and performance are ordered
      at every real temperature, and at an unreadable one. */
  lemma ProfilesAreOrdered(celsius: Celsius)
    ensures Valid(QUIET) && Valid(BALANCED) && Valid(PERFORMANCE)
    ensures DutyAt(QUIET, celsius) <= DutyAt(BALANCED, celsius) <= DutyAt(PERFORMANCE, celsius)
  {
    hide Valid, BelowAtBreakpoints, DutyAt;
    BuiltInsAreValid();
    QuietBelowBalanced();
    BalancedBelowPerformance();
    DutyDominance(QUIET, BALANCED, celsius);
    DutyDominance(BALANCED, PERFORMANCE, celsius);
  }
}
