/** The cold-start model behind the firmware floor (crates/fw-helper-core/src/floor.rs):
    temperature to rpm along firmware's curve, and rpm to duty through the fan table. */
module FloorModel {
  import opened Prelude
  import opened Board
  import opened FanScale

  /** Counts kept above what firmware is known to use. */
  const FLOOR_MARGIN_DUTY: Duty := 2

  // ---------------------------------------------------------------- lookups

  /** Firmware's curve from row `i` on: the first segment reaching `celsius` decides. */
  function CurveScan(curve: seq<FirmwareRow>, celsius: real, i: nat): (r: real)
    requires 1 <= i <= |curve|
    ensures 0.0 <= r <= 65535.0
    decreases |curve| - i
  {
    if i == |curve| then curve[i - 1].rpm as real
    else
      var (a, b) := (curve[i - 1], curve[i]);
      if celsius <= b.celsius then
        LerpBounds(a.rpm as real, b.rpm as real, Ratio(celsius - a.celsius, b.celsius - a.celsius));
        Lerp(a.rpm as real, b.rpm as real, Ratio(celsius - a.celsius, b.celsius - a.celsius))
      else CurveScan(curve, celsius, i + 1)
  }

  /** Division as the source uses it. Dividing by zero never arises on a valid table. */
  function Ratio(a: real, b: real): real { if b == 0.0 then 0.0 else a / b }

  /** The speed firmware runs at a finite temperature, before truncation to an integer:
      measured points interpolated, then a ramp to the fan's top speed at full duty. */
  function FirmwareSpeed(p: BoardProfile, celsius: real): (r: real)
    requires |p.dutyRpm| > 0 && |p.firmwareCurve| > 0
    ensures 0.0 <= r <= 65535.0
  {
    var last := p.firmwareCurve[|p.firmwareCurve| - 1];
    if celsius >= FULL_DUTY_ABOVE_C then 65535.0
    else if celsius > last.celsius then
      var t := Ratio(celsius - last.celsius, FULL_DUTY_ABOVE_C - last.celsius);
      LerpBounds(last.rpm as real, Top(p) as real, t);
      Lerp(last.rpm as real, Top(p) as real, t)
    else if celsius <= p.firmwareCurve[0].celsius then p.firmwareCurve[0].rpm as real
    else CurveScan(p.firmwareCurve, celsius, 1)
  }

  /** `interpolate_rpm`: unreadable or very hot asks for everything there is. */
  function InterpolateRpm(p: BoardProfile, celsius: Celsius): Rpm
    requires |p.dutyRpm| > 0 && |p.firmwareCurve| > 0
  {
    match celsius
    case NonFinite => 65535
    case Finite(c) => FirmwareSpeed(p, c).Floor
  }

  function InverseScan(table: seq<FanRow>, rpm: Rpm, i: nat): Duty
    requires 1 <= i <= |table|
    decreases |table| - i
  {
    if i == |table| then 255
    else
      var (a, b) := (table[i - 1], table[i]);
      if rpm <= b.rpm then
        if b.rpm == a.rpm then b.duty
        else
          var t := (rpm as real - a.rpm as real) / (b.rpm as real - a.rpm as real);
          LerpBounds(a.duty as real, b.duty as real, t);
          Min(Ceil(Lerp(a.duty as real, b.duty as real, t)), 255)
      else InverseScan(table, rpm, i + 1)
  }

  /** `duty_for_rpm`: the lowest duty reaching at least `rpm`, rounding up. */
  function DutyForRpm(table: seq<FanRow>, rpm: Rpm): Duty
    requires |table| > 0
  {
    if rpm == 0 then 0
    else if rpm >= table[|table| - 1].rpm then 255
    else InverseScan(table, rpm, 1)
  }

  function ForwardScan(table: seq<FanRow>, x: real, i: nat): real
    requires 1 <= i <= |table|
    decreases |table| - i
  {
    if i == |table| then table[i - 1].rpm as real
    else
      var (a, b) := (table[i - 1], table[i]);
      if x <= b.duty as real then
        Lerp(a.rpm as real, b.rpm as real, Ratio(x - a.duty as real, b.duty as real - a.duty as real))
      else ForwardScan(table, x, i + 1)
  }

  /** The speed a duty produces on a board's fan, for any point of the 0-255 scale. */
  function Forward(table: seq<FanRow>, x: real): real
    requires |table| > 0
  {
    if x >= table[|table| - 1].duty as real then table[|table| - 1].rpm as real
    else ForwardScan(table, x, 1)
  }

  /** The model's answer where nothing has been observed. */
  function ModelledFloor(p: BoardProfile, celsius: Celsius): Duty
    requires |p.dutyRpm| > 0 && |p.firmwareCurve| > 0
  {
    var rpm := InterpolateRpm(p, celsius);
    if rpm == 0 then 0 else WithMargin(DutyForRpm(p.dutyRpm, rpm))
  }

  /** A duty firmware is known to need, with the margin, and never in the stalling band. */
  function WithMargin(duty: Duty): Duty {
    Max(SaturatingAdd(duty, FLOOR_MARGIN_DUTY), STICTION_DUTY)
  }

  // ------------------------------------------- the fan table as a function

  /** The value segment `k` of the table gives at `x`. */
  function OnSegment(table: seq<FanRow>, k: nat, x: real): real
    requires 0 < k < |table| && table[k - 1].duty < table[k].duty
  {
    Between(table[k - 1].duty as real, table[k - 1].rpm as real, table[k].duty as real, table[k].rpm as real, x)
  }

  lemma DutiesAscend(table: seq<FanRow>, i: nat, j: nat)
    requires WellFormedFan(table) && i <= j < |table|
    ensures table[i].duty <= table[j].duty && table[i].rpm <= table[j].rpm
    ensures i < j ==> table[i].duty < table[j].duty
    decreases j - i
  {
    if i == j {
    } else {
      DutiesAscend(table, i, j - 1);
    }
  }

  lemma {:induction false} ForwardScanOnSegment(table: seq<FanRow>, x: real, i: nat, k: nat)
    requires WellFormedFan(table) && 1 <= i <= k < |table|
    requires table[k - 1].duty as real <= x <= table[k].duty as real
    requires x == table[k - 1].duty as real ==> k == 1
    ensures ForwardScan(table, x, i) == OnSegment(table, k, x)
    decreases k - i
  {
    if i < k {
      DutiesAscend(table, i, k - 1);
      ForwardScanOnSegment(table, x, i + 1, k);
    } else {
      LerpIsBetween(table[k - 1].duty as real, table[k - 1].rpm as real,
                    table[k].duty as real, table[k].rpm as real, x);
    }
  }

  /** Forward interpolation agrees with every segment the point lies on. */
  lemma ForwardOnSegment(table: seq<FanRow>, x: real, k: nat)
    requires WellFormedFan(table) && 0 < k < |table|
    requires table[k - 1].duty as real <= x <= table[k].duty as real
    ensures Forward(table, x) == OnSegment(table, k, x)
  {
    var (a, b) := (table[k - 1], table[k]);
    BetweenEnds(a.duty as real, a.rpm as real, b.duty as real, b.rpm as real);
    if x == table[|table| - 1].duty as real {
      DutiesAscend(table, k, |table| - 1);
    } else {
      DutiesAscend(table, k, |table| - 1);
      if x == a.duty as real && k > 1 {
        ForwardScanOnSegment(table, x, 1, k - 1);
        BetweenEnds(table[k - 2].duty as real, table[k - 2].rpm as real, a.duty as real, a.rpm as real);
      } else {
        ForwardScanOnSegment(table, x, 1, k);
      }
    }
  }

  /** Every duty below the last row lies on some segment. */
  lemma {:induction false} SegmentOfDuty(table: seq<FanRow>, x: real, n: nat) returns (k: nat)
    requires WellFormedFan(table) && 0 < n < |table| && 0.0 <= x <= table[n].duty as real
    ensures 0 < k <= n && table[k - 1].duty as real <= x <= table[k].duty as real
    decreases n
  {
    k := n;
    if x >= table[n - 1].duty as real {
    } else {
      k := SegmentOfDuty(table, x, n - 1);
    }
  }

  /** A louder duty never turns the fan slower. */
  lemma ForwardMonotone(table: seq<FanRow>, x: real, y: real)
    requires WellFormedFan(table) && 0.0 <= x <= y
    ensures Forward(table, x) <= Forward(table, y)
  {
    var n := |table| - 1;
    if x < table[n].duty as real {
      var k := SegmentOfDuty(table, x, n);
      ForwardOnSegment(table, x, k);
      var (a, b) := (table[k - 1], table[k]);
      if y <= b.duty as real {
        ForwardOnSegment(table, y, k);
        BetweenMonotone(a.duty as real, a.rpm as real, b.duty as real, b.rpm as real, x, y);
      } else {
        BetweenBounds(a.duty as real, a.rpm as real, b.duty as real, b.rpm as real, x);
        ForwardAtLeastRow(table, y, k);
      }
    }
  }

  /** Past row `k`, the fan turns at least as fast as row `k` measured. */
  lemma ForwardAtLeastRow(table: seq<FanRow>, y: real, k: nat)
    requires WellFormedFan(table) && k < |table| && table[k].duty as real <= y
    ensures Forward(table, y) >= table[k].rpm as real
  {
    var n := |table| - 1;
    DutiesAscend(table, k, n);
    if y < table[n].duty as real {
      DutiesAscend(table, 0, k);
      var j := SegmentOfDuty(table, y, n);
      ForwardOnSegment(table, y, j);
      var (a, b) := (table[j - 1], table[j]);
      BetweenBounds(a.duty as real, a.rpm as real, b.duty as real, b.rpm as real, y);
      if j <= k {
        DutiesAscend(table, j, k);
        BetweenEnds(a.duty as real, a.rpm as real, b.duty as real, b.rpm as real);
      } else {
        DutiesAscend(table, k, j - 1);
      }
    }
  }

  // --------------------------------------------------- inverting the table

  /** Which segment `duty_for_rpm` stops at. */
  lemma {:induction false} SegmentOfRpm(table: seq<FanRow>, rpm: Rpm, i: nat) returns (k: nat)
    requires WellFormedFan(table) && 1 <= i < |table|
    requires table[i - 1].rpm < rpm <= table[|table| - 1].rpm
    ensures i <= k < |table| && table[k - 1].rpm < rpm <= table[k].rpm
    ensures InverseScan(table, rpm, i) == Ceil(ExactDuty(table, k, rpm))
    decreases |table| - i
  {
    var (a, b) := (table[i - 1], table[i]);
    if rpm <= b.rpm {
      k := i;
      LerpIsBetween(a.rpm as real, a.duty as real, b.rpm as real, b.duty as real, rpm as real);
      BetweenBounds(a.rpm as real, a.duty as real, b.rpm as real, b.duty as real, rpm as real);
    } else {
      k := SegmentOfRpm(table, rpm, i + 1);
    }
  }

  /** The unrounded duty at which segment `k` reaches `rpm`. */
  function ExactDuty(table: seq<FanRow>, k: nat, rpm: Rpm): real
    requires 0 < k < |table| && table[k - 1].rpm < table[k].rpm
  {
    Between(table[k - 1].rpm as real, table[k - 1].duty as real,
            table[k].rpm as real, table[k].duty as real, rpm as real)
  }

  /** Forward interpolation reaches `rpm` exactly from the unrounded duty on. */
  lemma ForwardReachesFromExactDuty(table: seq<FanRow>, k: nat, rpm: Rpm, x: real)
    requires WellFormedFan(table) && 0 < k < |table| && table[k - 1].rpm < rpm <= table[k].rpm
    requires 0.0 <= x
    ensures Forward(table, x) >= rpm as real <==> x >= ExactDuty(table, k, rpm)
  {
    var (a, b) := (table[k - 1], table[k]);
    var (ad, ar, bd, br) := (a.duty as real, a.rpm as real, b.duty as real, b.rpm as real);
    var inv := ExactDuty(table, k, rpm);
    BetweenBounds(ar, ad, br, bd, rpm as real);
    if x < ad {
      ForwardMonotone(table, x, ad);
      ForwardOnSegment(table, ad, k);
      BetweenEnds(ad, ar, bd, br);
    } else if x <= bd {
      ForwardOnSegment(table, x, k);
      BetweenAdjoint(ad, ar, bd, br, x, rpm as real);
    } else {
      ForwardAtLeastRow(table, x, k);
    }
  }

  /** `duty_for_rpm` is the upper adjoint of forward interpolation: a duty reaches `rpm`
      exactly when it is at least the answer. */
  lemma DutyForRpmIsAdjoint(table: seq<FanRow>, rpm: Rpm, duty: Duty)
    requires WellFormedFan(table) && 0 < rpm < table[|table| - 1].rpm
    ensures Forward(table, duty as real) >= rpm as real <==> duty >= DutyForRpm(table, rpm)
  {
    var k := SegmentOfRpm(table, rpm, 1);
    ForwardReachesFromExactDuty(table, k, rpm, duty as real);
  }

  /** Any point of the scale from the answer up reaches `rpm`, or the fan's top speed. */
  lemma DutyForRpmSuffices(table: seq<FanRow>, rpm: Rpm, x: real)
    requires WellFormedFan(table) && x >= DutyForRpm(table, rpm) as real
    ensures Forward(table, x) >= Min(rpm, table[|table| - 1].rpm) as real
  {
    var top := table[|table| - 1];
    if rpm == 0 {
      ForwardAtLeastRow(table, x, 0);
    } else if rpm < top.rpm {
      var k := SegmentOfRpm(table, rpm, 1);
      ForwardReachesFromExactDuty(table, k, rpm, x);
    } else {
      ForwardAtLeastRow(table, x, |table| - 1);
    }
  }

  /** Silence is the answer to no speed and to nothing else. */
  lemma DutyForRpmZero(table: seq<FanRow>, rpm: Rpm)
    requires WellFormedFan(table)
    ensures DutyForRpm(table, rpm) == 0 <==> rpm == 0
  {
    if 0 < rpm < table[|table| - 1].rpm {
      DutyForRpmIsAdjoint(table, rpm, 0);
      ForwardOnSegment(table, 0.0, 1);
      BetweenEnds(table[0].duty as real, table[0].rpm as real, table[1].duty as real, table[1].rpm as real);
    }
  }

  // ------------------------------------------------- from floor to the wire

  /** What the EC holds after any duty at least `WithMargin(d)` is still at least `d`
      on the 0-255 scale, with 0.73 counts to spare below the saturating end. */
  lemma MarginSurvivesTheWire(d: Duty, duty: Duty)
    requires duty >= WithMargin(d)
    ensures ScaledBack(DutyToPercent(duty)) >= d as real
    ensures ScaledBack(DutyToPercent(duty)) >= MinReal(255.0, d as real + 0.73)
  {
    PercentLoss(duty);
  }

  /** The model's floor, sent as a percent, turns the fan at least as fast as the modelled
      speed, at every temperature; the fan's own top speed is the only cap. */
  lemma ModelledFloorOnTheWire(p: BoardProfile, celsius: Celsius, duty: Duty)
    requires WellFormed(p) && duty >= ModelledFloor(p, celsius)
    ensures Forward(p.dutyRpm, ScaledBack(DutyToPercent(duty))) >= Min(InterpolateRpm(p, celsius), Top(p)) as real
  {
    var rpm := InterpolateRpm(p, celsius);
    var x := ScaledBack(DutyToPercent(duty));
    if rpm == 0 {
      ForwardAtLeastRow(p.dutyRpm, x, 0);
    } else {
      MarginSurvivesTheWire(DutyForRpm(p.dutyRpm, rpm), duty);
      DutyForRpmSuffices(p.dutyRpm, rpm, x);
    }
  }

  /** On a steep fan a fraction of a count buys a fraction of two rpm. */
  lemma {:induction false} SteepForward(table: seq<FanRow>, x: real, y: real, n: nat)
    requires WellFormedFan(table) && Steep(table) && 0 < n < |table|
    requires 0.0 <= x <= y <= table[n].duty as real && Forward(table, x) > 0.0
    ensures Forward(table, y) >= Forward(table, x) + 2.0 * (y - x)
    decreases n
  {
    var (a, b) := (table[n - 1], table[n]);
    var (ad, ar, bd, br) := (a.duty as real, a.rpm as real, b.duty as real, b.rpm as real);
    if y <= ad && n > 1 {
      SteepForward(table, x, y, n - 1);
    } else if y <= ad {
      ForwardOnSegment(table, x, 1);
      BetweenEnds(ad, ar, bd, br);
    } else {
      ForwardOnSegment(table, y, n);
      var x' := MaxReal(x, ad);
      ForwardOnSegment(table, x', n);
      ForwardMonotone(table, x, x');
      BetweenBounds(ad, ar, bd, br, x');
      BetweenSteep(ad, ar, bd, br, x', y);
      if x < ad {
        DutiesAscend(table, 0, n - 1);
        assert n > 1;
        SteepForward(table, x, ad, n - 1);
      }
    }
  }

  lemma BetweenSteep(x0: real, y0: real, x1: real, y1: real, x: real, x': real)
    requires x0 < x1 && y1 - y0 >= 2.0 * (x1 - x0) && x <= x'
    ensures Between(x0, y0, x1, y1, x') >= Between(x0, y0, x1, y1, x) + 2.0 * (x' - x)
  {
    var w := x1 - x0;
    var (b, b') := (Between(x0, y0, x1, y1, x), Between(x0, y0, x1, y1, x'));
    BetweenScaled(x0, y0, x1, y1, x);
    BetweenScaled(x0, y0, x1, y1, x');
    assert (b' - b) * w == (y1 - y0) * (x' - x);
    ProductNonNegative(y1 - y0 - 2.0 * w, x' - x);
    assert (b' - b) * w >= (2.0 * (x' - x)) * w;
    MulOrder(2.0 * (x' - x), b' - b, w);
  }

  /** Below the full-duty point firmware is never modelled faster than the fan can turn. */
  lemma SpeedAtMostTop(p: BoardProfile, celsius: real)
    requires WellFormed(p) && celsius < FULL_DUTY_ABOVE_C
    ensures FirmwareSpeed(p, celsius) <= Top(p) as real
  {
    var curve := p.firmwareCurve;
    var last := curve[|curve| - 1];
    RowsAtMostLast(curve, 0);
    if celsius > last.celsius {
      LerpBounds(last.rpm as real, Top(p) as real, Ratio(celsius - last.celsius, FULL_DUTY_ABOVE_C - last.celsius));
    } else if celsius > curve[0].celsius {
      ScanAtMostLast(curve, celsius, 1);
    }
  }

  lemma {:induction false} RowsAtMostLast(curve: seq<FirmwareRow>, i: nat)
    requires WellFormedFirmware(curve) && i < |curve|
    ensures curve[i].rpm <= curve[|curve| - 1].rpm
    decreases |curve| - i
  {
    if i + 1 == |curve| {
    } else {
      RowsAtMostLast(curve, i + 1);
    }
  }

  lemma {:induction false} ScanAtMostLast(curve: seq<FirmwareRow>, celsius: real, i: nat)
    requires WellFormedFirmware(curve) && 1 <= i <= |curve|
    ensures CurveScan(curve, celsius, i) <= curve[|curve| - 1].rpm as real
    decreases |curve| - i
  {
    if i == |curve| {
    } else {
      var (a, b) := (curve[i - 1], curve[i]);
      RowsAtMostLast(curve, i);
      LerpBounds(a.rpm as real, b.rpm as real, Ratio(celsius - a.celsius, b.celsius - a.celsius));
      ScanAtMostLast(curve, celsius, i + 1);
    }
  }

  /** On a steep board, what a duty turns the fan at against the untruncated firmware
      speed, capped at the fan's own top. */
  ghost predicate BeatsUntruncatedSpeed(p: BoardProfile, celsius: real, duty: Duty)
    requires |p.dutyRpm| > 0 && |p.firmwareCurve| > 0
  {
    Forward(p.dutyRpm, ScaledBack(DutyToPercent(duty))) >= MinReal(FirmwareSpeed(p, celsius), Top(p) as real)
  }

  /** The margin also absorbs the truncation of the modelled speed to an integer. */
  lemma MarginAbsorbsTruncation(p: BoardProfile, celsius: real, duty: Duty)
    requires WellFormed(p) && Steep(p.dutyRpm) && duty >= ModelledFloor(p, Finite(celsius))
    requires !(0.0 < FirmwareSpeed(p, celsius) < 1.0)
    ensures BeatsUntruncatedSpeed(p, celsius, duty)
  {
    var table := p.dutyRpm;
    var top := table[|table| - 1];
    var speed := FirmwareSpeed(p, celsius);
    var rpm := speed.Floor;
    var x := ScaledBack(DutyToPercent(duty));
    if rpm == 0 {
      ForwardAtLeastRow(table, x, 0);
    } else {
      var d := DutyForRpm(table, rpm);
      MarginSurvivesTheWire(d, duty);
      DutyForRpmSuffices(table, rpm, d as real);
      ForwardMonotone(table, d as real, x);
      if rpm < top.rpm && x < top.duty as real {
        SteepForward(table, d as real, x, |table| - 1);
      } else if x >= top.duty as real {
        ForwardAtLeastRow(table, x, |table| - 1);
      }
    }
  }

  /** A fan held exactly at the modelled floor dominates the untruncated speed everywhere
      except in the sliver where firmware wants more than nothing but less than one rpm:
      there the speed truncates to zero and the floor is silence. */
  lemma FloorBeatsUntruncatedSpeedExactly(p: BoardProfile, celsius: real)
    requires WellFormed(p) && Steep(p.dutyRpm)
    ensures BeatsUntruncatedSpeed(p, celsius, ModelledFloor(p, Finite(celsius)))
            <==> !(0.0 < FirmwareSpeed(p, celsius) < 1.0)
  {
    hide FirmwareSpeed, DutyForRpm, CurveScan;
    if 0.0 < FirmwareSpeed(p, celsius) < 1.0 {
      if celsius >= FULL_DUTY_ABOVE_C { HottestIsFastest(p, celsius); }
      SpeedAtMostTop(p, celsius);
      ForwardOnSegment(p.dutyRpm, 0.0, 1);
      var (a, b) := (p.dutyRpm[0], p.dutyRpm[1]);
      BetweenEnds(a.duty as real, a.rpm as real, b.duty as real, b.rpm as real);
    } else {
      MarginAbsorbsTruncation(p, celsius, ModelledFloor(p, Finite(celsius)));
    }
  }

  /** The sliver is real on the Intel board: at 44.902 degrees firmware is on its way up from a
      standstill and the floor still allows silence. */
  lemma SliverOnIntel()
    ensures 0.0 < FirmwareSpeed(INTEL_CORE_ULTRA_3, 44.902) < 1.0
    ensures ModelledFloor(INTEL_CORE_ULTRA_3, Finite(44.902)) == 0
    ensures !BeatsUntruncatedSpeed(INTEL_CORE_ULTRA_3, 44.902, 0)
  {
    var p := INTEL_CORE_ULTRA_3;
    assert CurveScan(p.firmwareCurve, 44.902, 1) == CurveScan(p.firmwareCurve, 44.902, 2);
    MeasuredBoardsAreWellFormed();
    FloorBeatsUntruncatedSpeedExactly(p, 44.902);
  }

  // ------------------------------------- what the cold-start model is, absolutely

  lemma RowsAscend(curve: seq<FirmwareRow>, i: nat, j: nat)
    requires WellFormedFirmware(curve) && i <= j < |curve|
    ensures curve[i].celsius <= curve[j].celsius && curve[i].rpm <= curve[j].rpm
    ensures i < j ==> curve[i].celsius < curve[j].celsius
    decreases j - i
  {
    if i == j {
    } else {
      RowsAscend(curve, i, j - 1);
    }
  }

  lemma {:induction false} ScanOnRowSegment(curve: seq<FirmwareRow>, celsius: real, i: nat, k: nat)
    requires WellFormedFirmware(curve) && 1 <= i <= k < |curve|
    requires curve[k - 1].celsius < celsius <= curve[k].celsius
    ensures CurveScan(curve, celsius, i)
         == Between(curve[k - 1].celsius, curve[k - 1].rpm as real, curve[k].celsius, curve[k].rpm as real, celsius)
    decreases k - i
  {
    if i == k {
      LerpIsBetween(curve[k - 1].celsius, curve[k - 1].rpm as real, curve[k].celsius, curve[k].rpm as real, celsius);
    } else {
      RowsAscend(curve, i, k - 1);
      ScanOnRowSegment(curve, celsius, i + 1, k);
    }
  }

  /** Between two measured rows the modelled speed is the straight line through them, ends
      included. */
  lemma SpeedBetweenRows(p: BoardProfile, celsius: real, k: nat)
    requires WellFormed(p) && 0 < k < |p.firmwareCurve|
    requires p.firmwareCurve[k - 1].celsius <= celsius <= p.firmwareCurve[k].celsius
    ensures
      var (a, b) := (p.firmwareCurve[k - 1], p.firmwareCurve[k]);
      FirmwareSpeed(p, celsius) == Between(a.celsius, a.rpm as real, b.celsius, b.rpm as real, celsius)
  {
    var curve := p.firmwareCurve;
    var (a, b) := (curve[k - 1], curve[k]);
    RowsAscend(curve, 0, k - 1);
    RowsAscend(curve, k, |curve| - 1);
    BetweenEnds(a.celsius, a.rpm as real, b.celsius, b.rpm as real);
    if a.celsius < celsius {
      ScanOnRowSegment(curve, celsius, 1, k);
    } else if k > 1 {
      RowsAscend(curve, 0, k - 2);
      ScanOnRowSegment(curve, celsius, 1, k - 1);
      BetweenEnds(curve[k - 2].celsius, curve[k - 2].rpm as real, a.celsius, a.rpm as real);
    }
  }

  /** At a measured temperature it is the measured speed, and below the first row the first
      row's. */
  lemma SpeedAtRows(p: BoardProfile, i: nat, celsius: real)
    requires WellFormed(p) && i < |p.firmwareCurve|
    ensures FirmwareSpeed(p, p.firmwareCurve[i].celsius) == p.firmwareCurve[i].rpm as real
    ensures celsius <= p.firmwareCurve[0].celsius ==> FirmwareSpeed(p, celsius) == p.firmwareCurve[0].rpm as real
  {
    var curve := p.firmwareCurve;
    RowsAscend(curve, 0, |curve| - 1);
    if i > 0 {
      SpeedBetweenRows(p, curve[i].celsius, i);
      BetweenEnds(curve[i - 1].celsius, curve[i - 1].rpm as real, curve[i].celsius, curve[i].rpm as real);
    }
  }

  /** From the last measured row it rises on a straight line to the fan's top speed at 95
      degrees, and from there up it is no less than that. */
  lemma SpeedAboveRows(p: BoardProfile, celsius: real)
    requires WellFormed(p)
    ensures
      var last := p.firmwareCurve[|p.firmwareCurve| - 1];
      last.celsius <= celsius < 95.0 ==>
        FirmwareSpeed(p, celsius) == Between(last.celsius, last.rpm as real, 95.0, Top(p) as real, celsius)
    ensures celsius >= 95.0 ==> FirmwareSpeed(p, celsius) >= Top(p) as real
  {
    var n := |p.firmwareCurve| - 1;
    var last := p.firmwareCurve[n];
    if last.celsius < celsius < 95.0 {
      LerpIsBetween(last.celsius, last.rpm as real, 95.0, Top(p) as real, celsius);
    } else if celsius == last.celsius {
      SpeedAtRows(p, n, celsius);
      BetweenEnds(last.celsius, last.rpm as real, 95.0, Top(p) as real);
    }
  }

  lemma {:induction false} RowOf(curve: seq<FirmwareRow>, celsius: real, n: nat) returns (k: nat)
    requires WellFormedFirmware(curve) && 0 < n < |curve|
    requires curve[0].celsius <= celsius <= curve[n].celsius
    ensures 0 < k <= n && curve[k - 1].celsius <= celsius <= curve[k].celsius
    decreases n
  {
    k := n;
    if celsius >= curve[n - 1].celsius {
    } else {
      k := RowOf(curve, celsius, n - 1);
    }
  }

  /** A hotter machine is never modelled with a slower fan. */
  lemma SpeedMonotone(p: BoardProfile, a: real, b: real)
    requires WellFormed(p) && a <= b
    ensures FirmwareSpeed(p, a) <= FirmwareSpeed(p, b)
  {
    hide FirmwareSpeed;
    var curve := p.firmwareCurve;
    var n := |curve| - 1;
    var last := curve[n];
    SpeedAboveRows(p, a);
    SpeedAboveRows(p, b);
    SpeedWithinRows(p, a);
    SpeedWithinRows(p, b);
    if last.celsius <= a < 95.0 {
      BetweenBounds(last.celsius, last.rpm as real, 95.0, Top(p) as real, a);
      if b < 95.0 { BetweenMonotone(last.celsius, last.rpm as real, 95.0, Top(p) as real, a, b); }
    } else if last.celsius <= b < 95.0 {
      BetweenBounds(last.celsius, last.rpm as real, 95.0, Top(p) as real, b);
    } else if b < last.celsius && curve[0].celsius <= a {
      SpeedMonotoneOnRows(p, a, b);
    } else if a >= 95.0 {
      HottestIsFastest(p, a);
      HottestIsFastest(p, b);
    }
  }

  lemma HottestIsFastest(p: BoardProfile, celsius: real)
    requires WellFormed(p) && celsius >= 95.0
    ensures FirmwareSpeed(p, celsius) == 65535.0
  {}

  /** Up to the last row the speed lies between the first row's and the last's. */
  lemma SpeedWithinRows(p: BoardProfile, celsius: real)
    requires WellFormed(p)
    ensures
      var (first, last) := (p.firmwareCurve[0], p.firmwareCurve[|p.firmwareCurve| - 1]);
      && (celsius <= first.celsius ==> FirmwareSpeed(p, celsius) == first.rpm as real)
      && (celsius <= last.celsius ==> first.rpm as real <= FirmwareSpeed(p, celsius) <= last.rpm as real)
      && first.rpm <= last.rpm <= Top(p)
  {
    var curve := p.firmwareCurve;
    var n := |curve| - 1;
    SpeedAtRows(p, 0, celsius);
    RowsAscend(curve, 0, n);
    if curve[0].celsius < celsius <= curve[n].celsius {
      var k := RowOf(curve, celsius, n);
      SpeedBetweenRows(p, celsius, k);
      RowsAscend(curve, 0, k - 1);
      RowsAscend(curve, k, n);
      BetweenBounds(curve[k - 1].celsius, curve[k - 1].rpm as real, curve[k].celsius, curve[k].rpm as real, celsius);
    }
  }

  lemma SpeedMonotoneOnRows(p: BoardProfile, a: real, b: real)
    requires WellFormed(p) && p.firmwareCurve[0].celsius <= a <= b
    requires b < p.firmwareCurve[|p.firmwareCurve| - 1].celsius
    ensures FirmwareSpeed(p, a) <= FirmwareSpeed(p, b)
  {
    hide FirmwareSpeed;
    var curve := p.firmwareCurve;
    var n := |curve| - 1;
    RowsAscend(curve, 0, n);
    var i := RowOf(curve, a, n);
    var j := RowOf(curve, b, n);
    var (p0, p1, q0, q1) := (curve[i - 1], curve[i], curve[j - 1], curve[j]);
    SpeedBetweenRows(p, a, i);
    SpeedBetweenRows(p, b, j);
    if b <= p1.celsius {
      SpeedBetweenRows(p, b, i);
      BetweenMonotone(p0.celsius, p0.rpm as real, p1.celsius, p1.rpm as real, a, b);
    } else {
      BetweenBounds(p0.celsius, p0.rpm as real, p1.celsius, p1.rpm as real, a);
      BetweenBounds(q0.celsius, q0.rpm as real, q1.celsius, q1.rpm as real, b);
      if j <= i { RowsAscend(curve, j, i); }
      RowsAscend(curve, i, j - 1);
    }
  }

  /** The floor is no louder than it has to be: silent exactly where the modelled speed is
      nothing, and otherwise at most two counts above any duty that reaches that speed, but for
      the least duty that turns a fan. */
  lemma ModelledFloorIsTight(p: BoardProfile, celsius: Celsius, reaches: Duty)
    requires WellFormed(p)
    ensures ModelledFloor(p, celsius) == 0 <==> InterpolateRpm(p, celsius) == 0
    ensures
      var rpm := InterpolateRpm(p, celsius);
      (0 < rpm < Top(p) && Forward(p.dutyRpm, reaches as real) >= rpm as real) ==>
        ModelledFloor(p, celsius) <= Max(reaches + 2, STICTION_DUTY)
  {
    var rpm := InterpolateRpm(p, celsius);
    if 0 < rpm < Top(p) { DutyForRpmIsAdjoint(p.dutyRpm, rpm, reaches); }
  }

  /** The modelled target is that speed with its fraction dropped; unreadable asks for no less
      than the fan can turn. */
  lemma TargetDropsFraction(p: BoardProfile, celsius: real)
    requires WellFormed(p)
    ensures InterpolateRpm(p, Finite(celsius)) as real <= FirmwareSpeed(p, celsius)
    ensures FirmwareSpeed(p, celsius) < InterpolateRpm(p, Finite(celsius)) as real + 1.0
    ensures InterpolateRpm(p, NonFinite) >= Top(p)
  {}
}
