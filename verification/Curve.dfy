/** Temperature to duty curves, and the engine that follows one over time with hysteresis
    and ramp limits (crates/fw-helper-core/src/curve.rs). */
module Curve {
  import opened Prelude

  const HYSTERESIS_C: real := 2.0
  const RAMP_UP_PER_TICK: Duty := 12
  const RAMP_DOWN_PER_TICK: Duty := 4
  const HOTTEST_C: real := 120.0

  datatype Point = Point(celsius: real, duty: Duty)

  /** A point as an author wrote it: the temperature may be a NaN or an infinity. */
  datatype RawPoint = RawPoint(celsius: Celsius, duty: Duty)

  datatype CurveError =
    | TooFewPoints
    | NotAscending(at: nat)
    | DutyFalls(at: nat)
    | ImplausibleTemperature(at: nat)
    | UnturnableDuty(at: nat)

  // ------------------------------------------------------------- validation

  /** The first fault at or after point `i`, in the order the points are checked. */
  function FirstFault(raw: seq<RawPoint>, i: nat): Option<CurveError>
    requires i <= |raw|
    requires forall k :: 0 <= k < i ==> raw[k].celsius.Finite?
    decreases |raw| - i
  {
    if i == |raw| then None
    else
      var p := raw[i];
      if p.celsius.NonFinite? || !(0.0 <= p.celsius.celsius <= HOTTEST_C) then Some(ImplausibleTemperature(i))
      else if 0 < p.duty < STICTION_DUTY then Some(UnturnableDuty(i))
      else if i > 0 && p.celsius.celsius <= raw[i - 1].celsius.celsius then Some(NotAscending(i))
      else if i > 0 && p.duty < raw[i - 1].duty then Some(DutyFalls(i))
      else FirstFault(raw, i + 1)
  }

  /** `Curve::new`: the points of a valid curve, or the first fault. */
  function NewCurve(raw: seq<RawPoint>): Result<seq<Point>, CurveError> {
    if |raw| < 2 then Err(TooFewPoints)
    else
      var fault := FirstFault(raw, 0);
      if fault.Some? then Err(fault.value) else Ok(Finished(raw))
  }

  /** The points once every temperature is known to be finite. */
  function Finished(raw: seq<RawPoint>): (points: seq<Point>)
    ensures |points| == |raw|
  {
    seq(|raw|, i requires 0 <= i < |raw| =>
      Point(if raw[i].celsius.Finite? then raw[i].celsius.celsius else 0.0, raw[i].duty))
  }

  predicate LegalDuty(duty: Duty) { duty == 0 || duty >= STICTION_DUTY }

  /** What every curve in the program is known to satisfy. */
  predicate Valid(points: seq<Point>) {
    && |points| >= 2
    && (forall i :: 0 <= i < |points| ==> 0.0 <= points[i].celsius <= HOTTEST_C && LegalDuty(points[i].duty))
    && (forall i, j :: 0 <= i < |points| && j == i + 1 < |points| ==>
          points[i].celsius < points[j].celsius && points[i].duty <= points[j].duty)
  }

  /** A curve that has passed validation. */
  type Drawn = points: seq<Point> | Valid(points) witness [Point(0.0, 0), Point(100.0, 255)]

  function Raw(points: seq<Point>): (raw: seq<RawPoint>)
    ensures |raw| == |points|
  {
    seq(|points|, i requires 0 <= i < |points| => RawPoint(Finite(points[i].celsius), points[i].duty))
  }

  lemma {:induction false} FirstFaultNone(raw: seq<RawPoint>, i: nat)
    requires i <= |raw| && forall k :: 0 <= k < i ==> raw[k].celsius.Finite?
    ensures FirstFault(raw, i).None? <==>
      (forall k :: i <= k < |raw| ==>
        && raw[k].celsius.Finite? && 0.0 <= raw[k].celsius.celsius <= HOTTEST_C && LegalDuty(raw[k].duty)
        && (k > 0 && raw[k - 1].celsius.Finite? ==>
              raw[k - 1].celsius.celsius < raw[k].celsius.celsius && raw[k - 1].duty <= raw[k].duty))
    decreases |raw| - i
  {
    if i == |raw| || raw[i].celsius.NonFinite? {
    } else {
      FirstFaultNone(raw, i + 1);
    }
  }

  /** The validator accepts exactly the valid curves, and hands the points on unchanged. */
  lemma NewCurveAcceptsExactlyValid(raw: seq<RawPoint>)
    ensures NewCurve(raw).Ok? <==> exists points :: Valid(points) && raw == Raw(points)
    ensures NewCurve(raw).Ok? ==> Valid(NewCurve(raw).value) && raw == Raw(NewCurve(raw).value)
  {
    FirstFaultNone(raw, 0);
    var points := Finished(raw);
    if NewCurve(raw).Ok? {
      forall i | 0 <= i < |raw| ensures raw[i] == Raw(points)[i] {}
      assert raw == Raw(points);
      assert Valid(points);
    }
    if points': seq<Point> :| Valid(points') && raw == Raw(points') {
      forall k | 0 <= k < |raw| ensures raw[k] == RawPoint(Finite(points'[k].celsius), points'[k].duty) {}
      assert NewCurve(raw).Ok?;
    }
  }

  /** The point a fault is about. */
  function FaultAt(e: CurveError): nat {
    match e
    case TooFewPoints => 0
    case NotAscending(at) => at
    case DutyFalls(at) => at
    case ImplausibleTemperature(at) => at
    case UnturnableDuty(at) => at
  }

  /** Whether a list of points has this fault where the error says. */
  predicate HasFault(raw: seq<RawPoint>, e: CurveError) {
    var i := FaultAt(e);
    match e
    case TooFewPoints => |raw| < 2
    case ImplausibleTemperature(_) =>
      i < |raw| && (raw[i].celsius.NonFinite? || raw[i].celsius.celsius < 0.0 || raw[i].celsius.celsius > 120.0)
    case UnturnableDuty(_) => i < |raw| && 1 <= raw[i].duty <= 32
    case NotAscending(_) =>
      && 0 < i < |raw| && raw[i].celsius.Finite? && raw[i - 1].celsius.Finite?
      && raw[i].celsius.celsius <= raw[i - 1].celsius.celsius
    case DutyFalls(_) => 0 < i < |raw| && raw[i].duty < raw[i - 1].duty
  }

  lemma {:induction false} FirstFaultIsReal(raw: seq<RawPoint>, i: nat)
    requires i <= |raw| && forall k :: 0 <= k < i ==> raw[k].celsius.Finite?
    ensures
      var e := FirstFault(raw, i);
      e.Some? ==> !e.value.TooFewPoints? && i <= FaultAt(e.value) < |raw| && HasFault(raw, e.value)
    decreases |raw| - i
  {
    if i == |raw| || raw[i].celsius.NonFinite? {
    } else {
      FirstFaultIsReal(raw, i + 1);
    }
  }

  /** A refused curve has the fault it is refused for, at the point named. */
  lemma RefusalNamesARealFault(raw: seq<RawPoint>)
    ensures NewCurve(raw).Err? ==> HasFault(raw, NewCurve(raw).error)
    ensures |raw| < 2 <==> NewCurve(raw) == Err(TooFewPoints)
  {
    FirstFaultIsReal(raw, 0);
  }

  // ---------------------------------------------------------------- the curve

  /** The straight line between points `k - 1` and `k`, at `celsius`. */
  function OnSegment(points: seq<Point>, k: nat, celsius: real): real
    requires 0 < k < |points| && points[k - 1].celsius < points[k].celsius
  {
    Between(points[k - 1].celsius, points[k - 1].duty as real, points[k].celsius, points[k].duty as real, celsius)
  }

  /** The first segment, from point `i` on, that reaches `celsius`. */
  function Scan(points: seq<Point>, celsius: real, i: nat): (r: real)
    requires Valid(points) && 1 <= i <= |points|
    decreases |points| - i
  {
    if i == |points| then points[i - 1].duty as real
    else if celsius <= points[i].celsius then OnSegment(points, i, celsius)
    else Scan(points, celsius, i + 1)
  }

  /** The duty a curve asks for, before rounding to an integer. */
  function ExactAt(points: seq<Point>, celsius: real): real
    requires Valid(points)
  {
    var (first, last) := (points[0], points[|points| - 1]);
    if celsius <= first.celsius then first.duty as real
    else if celsius >= last.celsius then last.duty as real
    else Scan(points, celsius, 1)
  }

  /** `duty_at`: straight lines between the points, level outside them. */
  function DutyAt(points: seq<Point>, celsius: Celsius): Duty
    requires Valid(points)
  {
    match celsius
    case NonFinite => 255
    case Finite(c) =>
      ExactBounds(points, c);
      Round(ExactAt(points, c))
  }

  lemma PointsAscend(points: seq<Point>, i: nat, j: nat)
    requires Valid(points) && i <= j < |points|
    ensures points[i].celsius <= points[j].celsius && points[i].duty <= points[j].duty
    ensures i < j ==> points[i].celsius < points[j].celsius
    decreases j - i
  {
    if i == j {
    } else {
      PointsAscend(points, i, j - 1);
    }
  }

  lemma {:induction false} ScanOnSegment(points: seq<Point>, celsius: real, i: nat, k: nat)
    requires Valid(points) && 1 <= i <= k < |points|
    requires points[k - 1].celsius < celsius <= points[k].celsius
    ensures Scan(points, celsius, i) == OnSegment(points, k, celsius)
    decreases k - i
  {
    if i == k {
    } else {
      PointsAscend(points, i, k - 1);
      ScanOnSegment(points, celsius, i + 1, k);
    }
  }

  /** The curve agrees with every segment a temperature lies on, its ends included. */
  lemma ExactOnSegment(points: seq<Point>, celsius: real, k: nat)
    requires Valid(points) && 0 < k < |points|
    requires points[k - 1].celsius <= celsius <= points[k].celsius
    ensures ExactAt(points, celsius) == OnSegment(points, k, celsius)
  {
    var (a, b) := (points[k - 1], points[k]);
    var n := |points| - 1;
    BetweenEnds(a.celsius, a.duty as real, b.celsius, b.duty as real);
    PointsAscend(points, 0, k - 1);
    PointsAscend(points, k, n);
    if celsius == a.celsius && k > 1 {
      PointsAscend(points, 0, k - 2);
      ScanOnSegment(points, celsius, 1, k - 1);
      BetweenEnds(points[k - 2].celsius, points[k - 2].duty as real, a.celsius, a.duty as real);
    } else if points[0].celsius < celsius {
      if celsius == points[n].celsius {
        PointsAscend(points, k, n);
      } else {
        ScanOnSegment(points, celsius, 1, k);
      }
    }
  }

  lemma {:induction false} SegmentOf(points: seq<Point>, celsius: real, n: nat) returns (k: nat)
    requires Valid(points) && 0 < n < |points| && points[0].celsius <= celsius <= points[n].celsius
    ensures 0 < k <= n && points[k - 1].celsius <= celsius <= points[k].celsius
    decreases n
  {
    k := n;
    if celsius >= points[n - 1].celsius {
    } else {
      k := SegmentOf(points, celsius, n - 1);
    }
  }

  lemma ExactBounds(points: seq<Point>, celsius: real)
    requires Valid(points)
    ensures points[0].duty as real <= ExactAt(points, celsius) <= points[|points| - 1].duty as real
  {
    var n := |points| - 1;
    PointsAscend(points, 0, n);
    if points[0].celsius < celsius < points[n].celsius {
      var k := SegmentOf(points, celsius, n);
      ExactOnSegment(points, celsius, k);
      PointsAscend(points, 0, k - 1);
      PointsAscend(points, k, n);
      BetweenBounds(points[k - 1].celsius, points[k - 1].duty as real,
                    points[k].celsius, points[k].duty as real, celsius);
    }
  }

  lemma ExactMonotone(points: seq<Point>, a: real, b: real)
    requires Valid(points) && a <= b
    ensures ExactAt(points, a) <= ExactAt(points, b)
  {
    var n := |points| - 1;
    ExactBounds(points, a);
    ExactBounds(points, b);
    if points[0].celsius < a && b < points[n].celsius {
      var j := SegmentOf(points, a, n);
      var k := SegmentOf(points, b, n);
      ExactOnSegment(points, a, j);
      ExactOnSegment(points, b, k);
      var (p, q) := (points[j - 1], points[j]);
      if b <= q.celsius {
        ExactOnSegment(points, b, j);
        BetweenMonotone(p.celsius, p.duty as real, q.celsius, q.duty as real, a, b);
      } else {
        BetweenBounds(p.celsius, p.duty as real, q.celsius, q.duty as real, a);
        var (r, s) := (points[k - 1], points[k]);
        BetweenBounds(r.celsius, r.duty as real, s.celsius, s.duty as real, b);
        if k < j { PointsAscend(points, k, j - 1); }
        assert k > j by { if k == j {} }
        PointsAscend(points, j, k - 1);
      }
    }
  }

  /** A hotter machine never gets less air, over all finite temperatures. */
  lemma DutyMonotone(points: seq<Point>, a: real, b: real)
    requires Valid(points) && a <= b
    ensures DutyAt(points, Finite(a)) <= DutyAt(points, Finite(b))
  {
    ExactMonotone(points, a, b);
    ExactBounds(points, a);
    ExactBounds(points, b);
  }

  /** Every drawn point is honoured exactly, and no temperature leaves the end duties. */
  lemma DutyHitsPoints(points: seq<Point>, i: nat, celsius: real)
    requires Valid(points) && i < |points|
    ensures DutyAt(points, Finite(points[i].celsius)) == points[i].duty
    ensures points[0].duty <= DutyAt(points, Finite(celsius)) <= points[|points| - 1].duty
  {
    ExactBounds(points, celsius);
    var k := if i == 0 then 1 else i;
    PointsAscend(points, 0, i);
    ExactOnSegment(points, points[i].celsius, k);
    BetweenEnds(points[k - 1].celsius, points[k - 1].duty as real, points[k].celsius, points[k].duty as real);
  }

  /** Between two drawn points the duty is the whole count nearest the straight line through
      them, and an unreadable temperature asks for everything. */
  lemma DutyFollowsTheLine(points: seq<Point>, k: nat, celsius: real)
    requires Valid(points) && 0 < k < |points| && points[k - 1].celsius <= celsius <= points[k].celsius
    ensures
      var (a, b) := (points[k - 1], points[k]);
      var line := Between(a.celsius, a.duty as real, b.celsius, b.duty as real, celsius);
      line - 0.5 <= DutyAt(points, Finite(celsius)) as real <= line + 0.5
    ensures DutyAt(points, NonFinite) == 255
  {
    ExactOnSegment(points, celsius, k);
    ExactBounds(points, celsius);
  }

  // ---------------------------------------------------------------- dominance

  /** `low` asks for no more than `high` at every breakpoint of either curve. */
  ghost predicate BelowAtBreakpoints(low: seq<Point>, high: seq<Point>)
    requires Valid(low) && Valid(high)
  {
    && (forall i :: 0 <= i < |low| ==> low[i].duty as real <= ExactAt(high, low[i].celsius))
    && (forall i :: 0 <= i < |high| ==> ExactAt(low, high[i].celsius) <= high[i].duty as real)
  }

  lemma ExactAtPoint(points: seq<Point>, i: nat)
    requires Valid(points) && i < |points|
    ensures ExactAt(points, points[i].celsius) == points[i].duty as real
  {
    var k := if i == 0 then 1 else i;
    PointsAscend(points, 0, i);
    ExactOnSegment(points, points[i].celsius, k);
    BetweenEnds(points[k - 1].celsius, points[k - 1].duty as real, points[k].celsius, points[k].duty as real);
  }

  /** Two lines ordered at both ends of an interval are ordered inside it. */
  lemma LinesStayOrdered(x0: real, y0: real, x1: real, y1: real,
                         u0: real, v0: real, u1: real, v1: real,
                         l: real, r: real, c: real)
    requires x0 < x1 && u0 < u1 && l <= c <= r
    requires Between(x0, y0, x1, y1, l) <= Between(u0, v0, u1, v1, l)
    requires Between(x0, y0, x1, y1, r) <= Between(u0, v0, u1, v1, r)
    ensures Between(x0, y0, x1, y1, c) <= Between(u0, v0, u1, v1, c)
  {
    hide Between;
    if l < r {
      LineThroughTwo(x0, y0, x1, y1, l, r, c);
      LineThroughTwo(u0, v0, u1, v1, l, r, c);
      WeightedMeansOrdered(Between(x0, y0, x1, y1, l), Between(x0, y0, x1, y1, r), Between(x0, y0, x1, y1, c),
                           Between(u0, v0, u1, v1, l), Between(u0, v0, u1, v1, r), Between(u0, v0, u1, v1, c),
                           r - c, c - l, r - l);
    } else {
      assert c == l;
    }
  }

  lemma WeightedMeansOrdered(fl: real, fr: real, fc: real, gl: real, gr: real, gc: real, a: real, b: real, w: real)
    requires w > 0.0 && a >= 0.0 && b >= 0.0 && fl <= gl && fr <= gr
    requires fc * w == fl * a + fr * b && gc * w == gl * a + gr * b
    ensures fc <= gc
  {
    ProductNonNegative(gl - fl, a);
    ProductNonNegative(gr - fr, b);
    assert fl * a <= gl * a && fr * b <= gr * b;
    MulOrder(fc, gc, w);
  }

  /** A line's value inside an interval is the weighted mean of its values at the ends. */
  lemma LineThroughTwo(x0: real, y0: real, x1: real, y1: real, l: real, r: real, c: real)
    requires x0 < x1 && l < r
    ensures Between(x0, y0, x1, y1, c) * (r - l)
         == Between(x0, y0, x1, y1, l) * (r - c) + Between(x0, y0, x1, y1, r) * (c - l)
  {
    var m := (y1 - y0) / (x1 - x0);
    SlopeForm(x0, y0, x1, y1, c);
    SlopeForm(x0, y0, x1, y1, l);
    SlopeForm(x0, y0, x1, y1, r);
    LineIdentity(y0, m, c - x0, l - x0, r - x0);
  }

  lemma SlopeForm(x0: real, y0: real, x1: real, y1: real, x: real)
    requires x0 < x1
    ensures Between(x0, y0, x1, y1, x) == y0 + ((y1 - y0) / (x1 - x0)) * (x - x0)
  {
    var (w, h, d) := (x1 - x0, y1 - y0, x - x0);
    var (t, m) := (d / w, h / w);
    assert t * w == d && m * w == h;
    assert (t * h) * w == (t * w) * h == d * h == d * (m * w) == (m * d) * w;
    MulOrder(t * h, m * d, w);
    MulOrder(m * d, t * h, w);
  }

  lemma LineIdentity(y0: real, m: real, c: real, l: real, r: real)
    ensures (y0 + m * c) * (r - l) == (y0 + m * l) * (r - c) + (y0 + m * r) * (c - l)
  {
    var (mc, ml, mr) := (m * c, m * l, m * r);
    assert mc * r == mr * c && mc * l == ml * c && ml * r == mr * l;
  }

  /** Order at the merged breakpoints is order everywhere. */
  lemma BreakpointsSuffice(low: seq<Point>, high: seq<Point>, celsius: real)
    requires Valid(low) && Valid(high) && BelowAtBreakpoints(low, high)
    ensures ExactAt(low, celsius) <= ExactAt(high, celsius)
  {
    var (m, n) := (|low| - 1, |high| - 1);
    ExactBounds(low, celsius);
    ExactBounds(high, celsius);
    if celsius <= low[0].celsius {
      ExactBelowStart(low, high, celsius);
    } else if celsius >= high[n].celsius {
      ExactBounds(low, high[n].celsius);
      AboveEnd(low, high, celsius);
    } else if celsius >= low[m].celsius {
      ExactMonotone(high, low[m].celsius, celsius);
    } else if celsius <= high[0].celsius {
      ExactMonotone(low, celsius, high[0].celsius);
    } else {
      var i := SegmentOf(low, celsius, m);
      var j := SegmentOf(high, celsius, n);
      var (p, q, r, s) := (low[i - 1], low[i], high[j - 1], high[j]);
      var left := MaxReal(p.celsius, r.celsius);
      var right := MinReal(q.celsius, s.celsius);
      ExactAtPoint(low, i - 1); ExactAtPoint(low, i);
      ExactAtPoint(high, j - 1); ExactAtPoint(high, j);
      forall x | x == left || x == right || x == celsius
        ensures ExactAt(low, x) == OnSegment(low, i, x) && ExactAt(high, x) == OnSegment(high, j, x)
      {
        ExactOnSegment(low, x, i);
        ExactOnSegment(high, x, j);
      }
      LinesStayOrdered(p.celsius, p.duty as real, q.celsius, q.duty as real,
                       r.celsius, r.duty as real, s.celsius, s.duty as real, left, right, celsius);
    }
  }

  /** Left of `low`'s first point its duty is flat; `high` cannot be under it there unless
      it is under it at a breakpoint. */
  lemma ExactBelowStart(low: seq<Point>, high: seq<Point>, celsius: real)
    requires Valid(low) && Valid(high) && BelowAtBreakpoints(low, high) && celsius <= low[0].celsius
    ensures ExactAt(low, celsius) <= ExactAt(high, celsius)
  {
    ExactBounds(high, celsius);
    ExactBounds(low, high[0].celsius);
  }

  lemma AboveEnd(low: seq<Point>, high: seq<Point>, celsius: real)
    requires Valid(low) && Valid(high) && BelowAtBreakpoints(low, high)
    requires celsius >= high[|high| - 1].celsius
    ensures ExactAt(low, celsius) <= ExactAt(high, celsius)
  {
    var m := |low| - 1;
    PointsAscend(high, 0, |high| - 1);
    ExactBounds(low, celsius);
    ExactBounds(high, low[m].celsius);
  }

  /** Order of the exact curves is order of the duties asked for. */
  lemma DutyDominance(low: seq<Point>, high: seq<Point>, celsius: Celsius)
    requires Valid(low) && Valid(high) && BelowAtBreakpoints(low, high)
    ensures DutyAt(low, celsius) <= DutyAt(high, celsius)
  {
    if celsius.Finite? {
      BreakpointsSuffice(low, high, celsius.celsius);
      ExactBounds(low, celsius.celsius);
      ExactBounds(high, celsius.celsius);
    }
  }
}
