/** What each supported board is, as measured (crates/fw-helper-core/src/board.rs). */
module Board {
  import opened Prelude

  /** A measured duty and the fan speed it produces. */
  datatype FanRow = FanRow(duty: Duty, rpm: Rpm)

  /** A control-sensor temperature and the speed firmware chooses there. */
  datatype FirmwareRow = FirmwareRow(celsius: real, rpm: Rpm)

  datatype BoardProfile = BoardProfile(
    dutyRpm: seq<FanRow>,
    firmwareCurve: seq<FirmwareRow>,
    firmwareCurveHysteretic: bool)

  /** From this temperature up the model asks for everything. */
  const FULL_DUTY_ABOVE_C: real := 95.0

  /** Duties strictly ascend from a stopped fan and the speed never falls. */
  ghost predicate WellFormedFan(table: seq<FanRow>) {
    && |table| >= 2
    && table[0] == FanRow(0, 0)
    && (forall i, j :: 0 <= i < |table| && j == i + 1 < |table| ==>
          table[i].duty < table[j].duty && table[i].rpm <= table[j].rpm)
  }

  /** Temperatures strictly ascend below the full-duty point and the speed never falls. */
  ghost predicate WellFormedFirmware(curve: seq<FirmwareRow>) {
    && |curve| >= 1
    && (forall i, j :: 0 <= i < |curve| && j == i + 1 < |curve| ==>
          curve[i].celsius < curve[j].celsius && curve[i].rpm <= curve[j].rpm)
    && curve[|curve| - 1].celsius < FULL_DUTY_ABOVE_C
  }

  ghost predicate WellFormed(p: BoardProfile) {
    && WellFormedFan(p.dutyRpm)
    && WellFormedFirmware(p.firmwareCurve)
    && p.firmwareCurve[|p.firmwareCurve| - 1].rpm <= Top(p)
  }

  /** Once the fan turns, every further count buys at least two rpm. */
  ghost predicate Steep(table: seq<FanRow>) {
    forall i, j :: 0 <= i < |table| && j == i + 1 < |table| && table[j].rpm > 0 ==>
      table[j].rpm - table[i].rpm >= 2 * (table[j].duty - table[i].duty)
  }

  /** The fastest speed measured on this board's fan. */
  function Top(p: BoardProfile): Rpm
    requires |p.dutyRpm| > 0
  {
    p.dutyRpm[|p.dutyRpm| - 1].rpm
  }

  const INTEL_CORE_ULTRA_3 := BoardProfile(
    [FanRow(0, 0), FanRow(20, 0), FanRow(30, 1107), FanRow(40, 1512), FanRow(50, 1879),
     FanRow(65, 2296), FanRow(77, 2693), FanRow(90, 3052), FanRow(100, 3355),
     FanRow(120, 3840), FanRow(150, 4551), FanRow(180, 5201)],
    [FirmwareRow(43.9, 0), FirmwareRow(44.9, 0), FirmwareRow(53.9, 2020),
     FirmwareRow(64.8, 2925), FirmwareRow(76.8, 3100)],
    true)

  const AMD_RYZEN_AI_300 := BoardProfile(
    [FanRow(0, 0), FanRow(20, 0), FanRow(26, 967), FanRow(31, 1221), FanRow(36, 1456),
     FanRow(41, 1689), FanRow(46, 1916), FanRow(51, 2155), FanRow(64, 2664),
     FanRow(77, 3160), FanRow(89, 3614), FanRow(102, 4045), FanRow(115, 4468),
     FanRow(128, 4890), FanRow(153, 5585), FanRow(179, 6182), FanRow(204, 6779),
     FanRow(230, 7336), FanRow(255, 7864)],
    [FirmwareRow(49.9, 0), FirmwareRow(50.0, 2265), FirmwareRow(51.9, 2472),
     FirmwareRow(52.9, 2679), FirmwareRow(53.9, 2928), FirmwareRow(55.9, 3342),
     FirmwareRow(57.9, 3797), FirmwareRow(59.9, 4212), FirmwareRow(61.9, 4667),
     FirmwareRow(63.9, 5081), FirmwareRow(65.8, 5537), FirmwareRow(67.8, 5951),
     FirmwareRow(68.8, 6200)],
    false)

  /** The steps of a fan table from row `i` on, checked one row at a time. */
  predicate FanStepsOk(table: seq<FanRow>, i: nat)
    requires 1 <= i
    decreases |table| - i
  {
    i < |table| ==>
      && table[i - 1].duty < table[i].duty
      && table[i - 1].rpm <= table[i].rpm
      && (table[i].rpm > 0 ==> table[i].rpm - table[i - 1].rpm >= 2 * (table[i].duty - table[i - 1].duty))
      && FanStepsOk(table, i + 1)
  }

  /** The steps of a firmware curve from row `i` on. */
  predicate FirmwareStepsOk(curve: seq<FirmwareRow>, i: nat)
    requires 1 <= i
    decreases |curve| - i
  {
    i < |curve| ==>
      && curve[i - 1].celsius < curve[i].celsius
      && curve[i - 1].rpm <= curve[i].rpm
      && FirmwareStepsOk(curve, i + 1)
  }

  lemma FanStep(table: seq<FanRow>, k: nat, i: nat)
    requires 1 <= k <= i < |table| && FanStepsOk(table, k)
    ensures table[i - 1].duty < table[i].duty && table[i - 1].rpm <= table[i].rpm
    ensures table[i].rpm > 0 ==> table[i].rpm - table[i - 1].rpm >= 2 * (table[i].duty - table[i - 1].duty)
    decreases i - k
  {
    if k == i {
    } else {
      FanStep(table, k + 1, i);
    }
  }

  lemma FirmwareStep(curve: seq<FirmwareRow>, k: nat, i: nat)
    requires 1 <= k <= i < |curve| && FirmwareStepsOk(curve, k)
    ensures curve[i - 1].celsius < curve[i].celsius && curve[i - 1].rpm <= curve[i].rpm
    decreases i - k
  {
    if k == i {
    } else {
      FirmwareStep(curve, k + 1, i);
    }
  }

  /** A profile whose tables pass the row-by-row check is well formed and steep. */
  lemma StepsSuffice(p: BoardProfile)
    requires |p.dutyRpm| >= 2 && p.dutyRpm[0] == FanRow(0, 0) && FanStepsOk(p.dutyRpm, 1)
    requires |p.firmwareCurve| >= 1 && FirmwareStepsOk(p.firmwareCurve, 1)
    requires p.firmwareCurve[|p.firmwareCurve| - 1].celsius < FULL_DUTY_ABOVE_C
    requires p.firmwareCurve[|p.firmwareCurve| - 1].rpm <= Top(p)
    ensures WellFormed(p) && Steep(p.dutyRpm)
  {
    hide FanStepsOk, FirmwareStepsOk;
    var (fan, firmware) := (p.dutyRpm, p.firmwareCurve);
    forall i, j | 0 <= i < |fan| && j == i + 1 < |fan|
      ensures fan[i].duty < fan[j].duty && fan[i].rpm <= fan[j].rpm
      ensures fan[j].rpm > 0 ==> fan[j].rpm - fan[i].rpm >= 2 * (fan[j].duty - fan[i].duty)
    {
      FanStep(fan, 1, j);
    }
    forall i, j | 0 <= i < |firmware| && j == i + 1 < |firmware|
      ensures firmware[i].celsius < firmware[j].celsius && firmware[i].rpm <= firmware[j].rpm
    {
      FirmwareStep(firmware, 1, j);
    }
  }

  // The rows are checked from the last backwards, a few at a time.

  lemma IntelSteps()
    ensures FanStepsOk(INTEL_CORE_ULTRA_3.dutyRpm, 1) && FirmwareStepsOk(INTEL_CORE_ULTRA_3.firmwareCurve, 1)
  {
    var (fan, firmware) := (INTEL_CORE_ULTRA_3.dutyRpm, INTEL_CORE_ULTRA_3.firmwareCurve);
    assert FanStepsOk(fan, 10);
    assert FanStepsOk(fan, 7);
    assert FanStepsOk(fan, 4);
    assert FirmwareStepsOk(firmware, 3);
  }

  lemma AmdSteps()
    ensures FanStepsOk(AMD_RYZEN_AI_300.dutyRpm, 1) && FirmwareStepsOk(AMD_RYZEN_AI_300.firmwareCurve, 1)
  {
    var (fan, firmware) := (AMD_RYZEN_AI_300.dutyRpm, AMD_RYZEN_AI_300.firmwareCurve);
    assert FanStepsOk(fan, 17);
    assert FanStepsOk(fan, 14);
    assert FanStepsOk(fan, 11);
    assert FanStepsOk(fan, 8);
    assert FanStepsOk(fan, 5);
    assert FanStepsOk(fan, 3);
    assert FirmwareStepsOk(firmware, 11);
    assert FirmwareStepsOk(firmware, 8);
    assert FirmwareStepsOk(firmware, 5);
    assert FirmwareStepsOk(firmware, 3);
  }

  /** Both measured boards meet every assumption the floor makes of its tables. */
  lemma MeasuredBoardsAreWellFormed()
    ensures WellFormed(INTEL_CORE_ULTRA_3) && Steep(INTEL_CORE_ULTRA_3.dutyRpm)
    ensures WellFormed(AMD_RYZEN_AI_300) && Steep(AMD_RYZEN_AI_300.dutyRpm)
  {
    IntelSteps();
    AmdSteps();
    StepsSuffice(INTEL_CORE_ULTRA_3);
    StepsSuffice(AMD_RYZEN_AI_300);
  }
}
