/** Adding a point to a curve in the editor (crates/fw-helper-gui/src/curve.rs,
    `insert_point`). */
module InsertPoint {
  import opened Prelude
  import opened Curve

  /** The widest gap among the first `n` points: the point it ends at, and its width. The
      first of equally wide gaps wins. */
  function Widest(points: seq<Point>, n: nat): (w: (nat, real))
    requires 1 <= n <= |points|
    ensures w.0 < n && (w.1 > 0.0 ==> w.0 > 0 && w.1 == points[w.0].celsius - points[w.0 - 1].celsius)
  {
    if n == 1 then (0, 0.0)
    else
      var before := Widest(points, n - 1);
      var gap := points[n - 1].celsius - points[n - 2].celsius;
      if gap > before.1 then (n - 1, gap) else before
  }

  /** The duty halfway between two, kept out of the band that cannot turn the fan. */
  function MidDuty(a: Duty, b: Duty): Duty {
    var mid := (a + b) / 2;
    if 0 < mid < STICTION_DUTY then (if mid * 2 < STICTION_DUTY then 0 else STICTION_DUTY) else mid
  }

  /** The whole degree nearest the middle of a gap. */
  function Midpoint(a: real, b: real): real { Round((a + b) / 2.0) as real }

  function Inserted(points: seq<Point>, i: nat, p: Point): (r: seq<Point>)
    requires i <= |points|
    ensures |r| == |points| + 1
  {
    points[..i] + [p] + points[i..]
  }

  /** The point that splits the gap between two others. */
  function Halfway(a: Point, b: Point): Point { Point(Midpoint(a.celsius, b.celsius), MidDuty(a.duty, b.duty)) }

  /** The point that extends a curve past its last. */
  function Beyond(last: Point): Point {
    Point(MinReal(last.celsius + 5.0, HOTTEST_C), SaturatingAdd(last.duty, 10))
  }

  /** The points with one more, or `None` where there is no room. They need not be a valid
      curve: the editor's button works on whatever has been typed so far. */
  function AfterInsert(points: seq<Point>): Option<seq<Point>>
    requires points != []
  {
    var (i, gap) := Widest(points, |points|);
    var last := points[|points| - 1];
    if gap >= 2.0 then Some(Inserted(points, i, Halfway(points[i - 1], points[i])))
    else if last.celsius + 2.0 > HOTTEST_C then None
    else Some(Inserted(points, |points|, Beyond(last)))
  }

  class CurveEditor {
    var points: seq<Point>

    constructor (points: seq<Point>)
      ensures this.points == points
    {
      this.points := points;
    }

    method FindWidest() returns (at: nat, widest: real)
      requires |points| >= 1
      ensures (at, widest) == Widest(points, |points|)
    {
      at, widest := 0, 0.0;
      for n := 1 to |points|
        invariant (at, widest) == Widest(points, n)
      {
        var gap := points[n].celsius - points[n - 1].celsius;
        if gap > widest {
          at, widest := n, gap;
        }
      }
    }

    /** A midpoint in the stalling band goes to the nearer edge of the band. */
    static method MiddleDuty(a: Duty, b: Duty) returns (duty: Duty)
      ensures duty == MidDuty(a, b)
    {
      var mid := (a + b) / 2;
      duty := mid;
      if mid > 0 && mid < STICTION_DUTY {
        duty := if mid * 2 < STICTION_DUTY then 0 else STICTION_DUTY;
      }
    }

    /** True when a point was added. */
    method InsertPoint() returns (added: bool)
      requires points != []
      modifies this
      ensures AfterInsert(old(points)) == if added then Some(points) else None
      ensures !added ==> points == old(points)
    {
      hide Widest, MidDuty, Midpoint, Inserted, Beyond;
      var at, widest := FindWidest();
      if widest >= 2.0 {
        var (a, b) := (points[at - 1], points[at]);
        var duty := MiddleDuty(a.duty, b.duty);
        points := Inserted(points, at, Point(Midpoint(a.celsius, b.celsius), duty));
        return true;
      }
      var last := points[|points| - 1];
      if last.celsius + 2.0 > HOTTEST_C {
        return false;
      }
      points := Inserted(points, |points|, Beyond(last));
      return true;
    }
  }

  // -------------------------------------------------------------- what it keeps

  /** There is a gap wide enough to split. */
  ghost predicate Splittable(points: seq<Point>) {
    exists i :: 0 < i < |points| && GapAt(points, i) >= 2.0
  }

  function GapAt(points: seq<Point>, i: int): real
    requires 0 < i < |points|
  {
    points[i].celsius - points[i - 1].celsius
  }

  lemma {:induction false} WidestIsWidest(points: seq<Point>, n: nat, i: nat)
    requires 0 < i < n <= |points|
    ensures GapAt(points, i) <= Widest(points, n).1
  {
    if i == n - 1 {
    } else {
      WidestIsWidest(points, n - 1, i);
    }
  }

  lemma SplittableIffWide(points: seq<Point>)
    requires Valid(points)
    ensures Splittable(points) <==> Widest(points, |points|).1 >= 2.0
  {
    var (w, gap) := Widest(points, |points|);
    if gap >= 2.0 {
      assert GapAt(points, w) >= 2.0;
    }
    if Splittable(points) {
      var i :| 0 < i < |points| && GapAt(points, i) >= 2.0;
      WidestIsWidest(points, |points|, i);
    }
  }

  lemma InsertedAt(points: seq<Point>, i: nat, p: Point, k: nat)
    requires i <= |points| && k <= |points|
    ensures Inserted(points, i, p)[k] == if k < i then points[k] else if k == i then p else points[k - 1]
  {}

  /** A point strictly between its neighbours, at a legal duty between theirs, keeps a curve
      valid. */
  lemma InsertedIsValid(points: seq<Point>, i: nat, p: Point)
    requires Valid(points) && 0 < i <= |points| && 0.0 <= p.celsius <= HOTTEST_C && LegalDuty(p.duty)
    requires points[i - 1].celsius < p.celsius && points[i - 1].duty <= p.duty
    requires i < |points| ==> p.celsius < points[i].celsius && p.duty <= points[i].duty
    ensures Valid(Inserted(points, i, p))
  {
    hide Inserted;
    var new' := Inserted(points, i, p);
    forall k | 0 <= k < |new'|
      ensures 0.0 <= new'[k].celsius <= HOTTEST_C && LegalDuty(new'[k].duty)
    {
      InsertedAt(points, i, p, k);
    }
    forall k | 0 < k < |new'|
      ensures new'[k - 1].celsius < new'[k].celsius && new'[k - 1].duty <= new'[k].duty
    {
      InsertedAt(points, i, p, k - 1);
      InsertedAt(points, i, p, k);
    }
  }

  /** The midpoint of a gap of two degrees or more rounds to a degree strictly inside it. */
  lemma MidpointInside(a: real, b: real)
    requires b - a >= 2.0
    ensures a < Midpoint(a, b) < b
  {}

  /** The middle of two legal ascending duties is legal and between them. */
  lemma MidDutyBetween(a: Duty, b: Duty)
    requires LegalDuty(a) && LegalDuty(b) && a <= b
    ensures LegalDuty(MidDuty(a, b)) && a <= MidDuty(a, b) <= b
  {}

  /** What an insertion is: where there is a wide gap a split of it, else an extension. */
  ghost predicate IsInsertion(points: seq<Point>, new': seq<Point>) {
    exists i, p :: 0 <= i <= |points| && new' == Inserted(points, i, p)
  }

  lemma NeighboursAscend(points: seq<Point>, i: nat)
    requires Valid(points) && 0 < i < |points|
    ensures points[i - 1].celsius < points[i].celsius && points[i - 1].duty <= points[i].duty
    ensures 0.0 <= points[i - 1].celsius && points[i].celsius <= HOTTEST_C
    ensures LegalDuty(points[i - 1].duty) && LegalDuty(points[i].duty)
  {}

  lemma InsertionIsOne(points: seq<Point>, i: nat, p: Point)
    requires i <= |points|
    ensures IsInsertion(points, Inserted(points, i, p))
  {}

  /** Splitting a gap always keeps the curve valid. */
  lemma SplitIsValid(points: seq<Point>)
    requires Valid(points) && Widest(points, |points|).1 >= 2.0
    ensures AfterInsert(points).Some? && Valid(AfterInsert(points).value)
    ensures IsInsertion(points, AfterInsert(points).value)
  {
    hide Valid, Inserted, Midpoint, MidDuty, IsInsertion, Widest;
    var (i, gap) := Widest(points, |points|);
    var (a, b) := (points[i - 1], points[i]);
    var p := Halfway(a, b);
    assert AfterInsert(points) == Some(Inserted(points, i, p));
    SplitPointIsValid(points, i);
    InsertionIsOne(points, i, p);
  }

  lemma SplitPointIsValid(points: seq<Point>, i: nat)
    requires Valid(points) && 0 < i < |points| && points[i].celsius - points[i - 1].celsius >= 2.0
    ensures Valid(Inserted(points, i, Halfway(points[i - 1], points[i])))
  {
    NeighboursAscend(points, i);
    hide Inserted, MidDuty, Midpoint, Valid;
    var (a, b) := (points[i - 1], points[i]);
    MidpointInside(a.celsius, b.celsius);
    MidDutyBetween(a.duty, b.duty);
    InsertedIsValid(points, i, Halfway(a, b));
  }

  /** Extending past the top keeps the curve valid exactly when the last duty turns the
      fan. */
  lemma ExtensionValidExactlyWhen(points: seq<Point>)
    requires Valid(points) && Widest(points, |points|).1 < 2.0 && AfterInsert(points).Some?
    ensures Valid(AfterInsert(points).value) <==> points[|points| - 1].duty > 0
    ensures IsInsertion(points, AfterInsert(points).value)
  {
    hide Inserted, IsInsertion;
    var n := |points|;
    var last := points[n - 1];
    var p := Beyond(last);
    InsertionIsOne(points, n, p);
    if last.duty > 0 {
      InsertedIsValid(points, n, p);
    } else {
      InsertedAt(points, n, p, n);
      assert AfterInsert(points).value[n] == p && !LegalDuty(p.duty);
    }
  }

  /** Old points are kept in order, and the new curve is valid exactly when it was made by
      splitting a gap or the last duty turns the fan; a stopped last point is extended to a
      duty that stalls. */
  lemma InsertValidExactlyWhen(points: seq<Point>)
    requires Valid(points)
    ensures AfterInsert(points).None? <==> !Splittable(points) && points[|points| - 1].celsius + 2.0 > HOTTEST_C
    ensures AfterInsert(points).Some? ==> IsInsertion(points, AfterInsert(points).value)
    ensures AfterInsert(points).Some? ==>
      (Valid(AfterInsert(points).value) <==> Splittable(points) || points[|points| - 1].duty > 0)
  {
    hide IsInsertion, Splittable, Inserted;
    SplittableIffWide(points);
    if Widest(points, |points|).1 >= 2.0 {
      SplitIsValid(points);
    } else if AfterInsert(points).Some? {
      ExtensionValidExactlyWhen(points);
    }
  }

  /** The exception is real: two stopped points a degree apart are a valid curve, and the
      point added to them has a duty that stalls. */
  lemma StoppedCurveIsMadeInvalid()
    ensures
      var points := [Point(50.0, 0), Point(51.0, 0)];
      && Valid(points)
      && AfterInsert(points) == Some(points + [Point(56.0, 10)])
      && !Valid(AfterInsert(points).value)
  {
    var points := [Point(50.0, 0), Point(51.0, 0)];
    assert Widest(points, 2) == (1, 1.0);
    assert Inserted(points, 2, Point(56.0, 10)) == points + [Point(56.0, 10)];
    assert !LegalDuty(AfterInsert(points).value[2].duty);
  }

  // ------------------------------------------------------- points still in order

  /** Temperatures that a curve could have, whatever the duties. */
  ghost predicate Ordered(points: seq<Point>) {
    && points != []
    && (forall i :: 0 <= i < |points| ==> 0.0 <= points[i].celsius <= HOTTEST_C)
    && (forall i, j :: 0 <= i < |points| && j == i + 1 < |points| ==> points[i].celsius < points[j].celsius)
  }

  lemma InsertedIsOrdered(points: seq<Point>, i: nat, p: Point)
    requires Ordered(points) && 0 < i <= |points| && 0.0 <= p.celsius <= HOTTEST_C
    requires points[i - 1].celsius < p.celsius && (i < |points| ==> p.celsius < points[i].celsius)
    ensures Ordered(Inserted(points, i, p))
  {
    hide Inserted;
    var new' := Inserted(points, i, p);
    forall k | 0 <= k < |new'| ensures 0.0 <= new'[k].celsius <= HOTTEST_C {
      InsertedAt(points, i, p, k);
    }
    forall k, l | 0 <= k < |new'| && l == k + 1 < |new'| ensures new'[k].celsius < new'[l].celsius {
      InsertedAt(points, i, p, k);
      InsertedAt(points, i, p, l);
    }
  }

  /** Temperatures in order stay in order, even where a duty is not one a curve may have. */
  lemma InsertionKeepsOrder(points: seq<Point>)
    requires Ordered(points) && AfterInsert(points).Some?
    ensures Ordered(AfterInsert(points).value)
  {
    hide Inserted, Midpoint, MidDuty;
    var (i, gap) := Widest(points, |points|);
    if gap >= 2.0 {
      MidpointInside(points[i - 1].celsius, points[i].celsius);
      InsertedIsOrdered(points, i, Halfway(points[i - 1], points[i]));
    } else {
      InsertedIsOrdered(points, |points|, Beyond(points[|points| - 1]));
    }
  }

  // ------------------------------------------------------------------ it stops

  /** Whole degrees strictly between two temperatures. */
  function Inner(a: real, b: real): nat { Max(Ceil(b) - a.Floor - 1, 0) }

  /** Whole degrees inside the gaps between neighbours. */
  function Gaps(points: seq<Point>): nat {
    if |points| <= 1 then 0
    else
      var n := |points| - 1;
      Gaps(points[..n]) + Inner(points[n - 1].celsius, points[n].celsius)
  }

  /** Whole degrees above the last point, and half the room there. */
  function Above(last: real): nat {
    if last >= HOTTEST_C then 0 else 120 - last.Floor + ((HOTTEST_C - last) / 2.0).Floor
  }

  /** How much more can be inserted, at most. */
  function Room(points: seq<Point>): nat
    requires points != []
  {
    Gaps(points) + Above(points[|points| - 1].celsius)
  }

  /** Inserting between two points replaces their gap with two. */
  lemma {:induction false} GapsAfterInsert(points: seq<Point>, i: nat, p: Point)
    requires 0 < i < |points|
    ensures
      var (a, b) := (points[i - 1].celsius, points[i].celsius);
      Gaps(Inserted(points, i, p)) == Gaps(points) - Inner(a, b) + Inner(a, p.celsius) + Inner(p.celsius, b)
  {
    hide Inner;
    var n := |points| - 1;
    var new' := Inserted(points, i, p);
    if i == n {
      assert new'[..n + 1] == points[..n] + [p];
      assert (points[..n] + [p])[..n] == points[..n];
    } else {
      GapsAfterInsert(points[..n], i, p);
      assert new'[..n + 1] == Inserted(points[..n], i, p);
    }
  }

  lemma GapsAfterAppend(points: seq<Point>, p: Point)
    requires points != []
    ensures Gaps(Inserted(points, |points|, p)) == Gaps(points) + Inner(points[|points| - 1].celsius, p.celsius)
  {
    var new' := Inserted(points, |points|, p);
    assert new'[..|points|] == points;
  }

  /** A degree inside a gap divides the others between its two sides. */
  lemma InnerSplits(a: real, d: int, b: real)
    requires a < d as real < b
    ensures Inner(a, d as real) + Inner(d as real, b) == Inner(a, b) - 1
  {}

  /** Extending upwards by two degrees or more uses room. */
  lemma ExtendingUsesRoom(last: real, new': real)
    requires last + 2.0 <= new' <= HOTTEST_C
    ensures Inner(last, new') + Above(new') < Above(last)
  {
    var (half, half') := ((HOTTEST_C - last) / 2.0, (HOTTEST_C - new') / 2.0);
    assert half' <= half - 1.0;
    FloorFalls(half', half);
    CeilAboveFloor(last, new');
  }

  lemma FloorFalls(x: real, y: real)
    requires x <= y - 1.0
    ensures x.Floor <= y.Floor - 1
  {}

  lemma CeilAboveFloor(a: real, b: real)
    requires a < b
    ensures a.Floor < Ceil(b) <= b.Floor + 1
    ensures b == b.Floor as real ==> Ceil(b) == b.Floor
  {}

  /** Every insertion uses up room, on any points at all. */
  lemma InsertUsesRoom(points: seq<Point>)
    requires points != [] && AfterInsert(points).Some?
    ensures Room(AfterInsert(points).value) < Room(points)
  {
    hide MidDuty, Inner, Above, Gaps;
    var (i, gap) := Widest(points, |points|);
    var last := points[|points| - 1];
    if gap >= 2.0 {
      var (a, b) := (points[i - 1], points[i]);
      MidpointInside(a.celsius, b.celsius);
      GapsAfterInsert(points, i, Halfway(a, b));
      InnerSplits(a.celsius, Round((a.celsius + b.celsius) / 2.0), b.celsius);
      InsertedAt(points, i, Halfway(a, b), |points|);
    } else {
      GapsAfterAppend(points, Beyond(last));
      ExtendingUsesRoom(last.celsius, Beyond(last).celsius);
      InsertedAt(points, |points|, Beyond(last), |points|);
    }
  }

  /** Pressing the button again and again comes to an end, whatever the points were and
      whether or not they are a valid curve along the way. */
  lemma {:induction false} RepeatedInsertionStops(history: seq<seq<Point>>)
    requires history != [] && forall k :: 0 <= k < |history| ==> history[k] != []
    requires forall k :: 0 < k < |history| ==> AfterInsert(history[k - 1]) == Some(history[k])
    ensures |history| - 1 <= Room(history[0]) - Room(history[|history| - 1])
  {
    hide AfterInsert, Room;
    var n := |history| - 1;
    if n == 0 {
    } else {
      RepeatedInsertionStops(history[..n]);
      assert AfterInsert(history[n - 1]) == Some(history[n]);
      InsertUsesRoom(history[n - 1]);
    }
  }

  lemma {:induction false} GapsBounded(points: seq<Point>)
    requires Ordered(points)
    ensures Gaps(points) <= points[|points| - 1].celsius.Floor - points[0].celsius.Floor
  {
    var n := |points| - 1;
    if n == 0 {
    } else {
      GapsBounded(points[..n]);
      assert points[n - 1].celsius < points[n].celsius;
    }
  }

  /** From temperatures in order at most 180 points are ever added. */
  lemma OrderedInsertionsBounded(history: seq<seq<Point>>)
    requires history != [] && Ordered(history[0]) && forall k :: 0 <= k < |history| ==> history[k] != []
    requires forall k :: 0 < k < |history| ==> AfterInsert(history[k - 1]) == Some(history[k])
    ensures |history| - 1 <= 180
  {
    RepeatedInsertionStops(history);
    GapsBounded(history[0]);
  }

  // ------------------------------------------------------------- where it lands

  lemma {:induction false} WidestComesFirst(points: seq<Point>, n: nat, i: nat)
    requires 0 < i < n <= |points| && i < Widest(points, n).0
    ensures GapAt(points, i) < Widest(points, n).1
  {
    if Widest(points, n).0 == n - 1 {
      WidestIsWidest(points, n - 1, i);
    } else {
      WidestComesFirst(points, n - 1, i);
    }
  }

  /** A split is of the widest gap, the first where several are as wide: to the whole degree
      nearest its middle, at the duty halfway between its ends, or where that would stall the
      fan at the nearer of silence and the least duty that turns it. */
  lemma SplitLandsHalfway(points: seq<Point>, i: nat)
    requires points != [] && 0 < i < |points| && GapAt(points, i) >= 2.0
    requires forall j :: 0 < j < |points| ==> GapAt(points, j) <= GapAt(points, i)
    requires forall j :: 0 < j < i ==> GapAt(points, j) < GapAt(points, i)
    ensures
      AfterInsert(points).Some? && |AfterInsert(points).value| == |points| + 1 &&
      var (a, b) := (points[i - 1], points[i]);
      var p := AfterInsert(points).value[i];
      var middle := (a.celsius + b.celsius) / 2.0;
      var halfway := (a.duty + b.duty) / 2;
      && middle - 0.5 <= p.celsius <= middle + 0.5 && p.celsius == p.celsius.Floor as real
      && (p.duty == halfway || (1 <= halfway <= 16 && p.duty == 0) || (17 <= halfway <= 32 && p.duty == 33))
      && (1 <= halfway <= 32 ==> p.duty != halfway)
      && AfterInsert(points).value[..i] == points[..i] && AfterInsert(points).value[i + 1..] == points[i..]
  {
    var (w, gap) := Widest(points, |points|);
    WidestIsWidest(points, |points|, i);
    assert gap > 0.0 && gap == GapAt(points, w);
    if i < w { WidestComesFirst(points, |points|, i); }
  }

  /** With no gap to split the new point is five degrees up, at most 120, and ten counts louder,
      at most 255. */
  lemma ExtensionLandsAbove(points: seq<Point>)
    requires points != [] && forall j :: 0 < j < |points| ==> GapAt(points, j) < 2.0
    ensures
      var last := points[|points| - 1];
      && (last.celsius > 118.0 ==> AfterInsert(points).None?)
      && (last.celsius <= 118.0 ==>
            AfterInsert(points) == Some(points + [Point(MinReal(last.celsius + 5.0, 120.0), Min(last.duty + 10, 255))]))
  {
    var (w, gap) := Widest(points, |points|);
    if gap > 0.0 { assert GapAt(points, w) == gap; }
    var p := Beyond(points[|points| - 1]);
    assert Inserted(points, |points|, p) == points + [p];
  }
}
