/** The EC's percent scale for the fan (crates/fw-helper-core/src/ec.rs, module `fan`). */
module FanScale {
  import opened Prelude

  type Percent = p: int | 0 <= p <= 100

  function DutyToPercent(duty: Duty): Percent { (duty * 100 + 127) / 255 }

  function PercentToDuty(percent: Percent): Duty { (percent * 255 + 50) / 100 }

  /** The point on the 0-255 scale a whole percent stands for, unrounded. */
  function ScaledBack(percent: Percent): real { percent as real * 255.0 / 100.0 }

  /** The EC's whole percents survive the trip through duties and back, and a duty comes
      back at most one count away. */
  lemma PercentRoundTrip(percent: Percent, duty: Duty)
    ensures DutyToPercent(PercentToDuty(percent)) == percent
    ensures AbsDiff(PercentToDuty(DutyToPercent(duty)), duty) <= 1
  {}

  /** A louder duty never becomes a lower percent. */
  lemma PercentMonotone(a: Duty, b: Duty)
    requires a <= b
    ensures DutyToPercent(a) <= DutyToPercent(b)
  {}

  /** Rounding to a whole percent loses less than one and a third counts, and full duty
      loses nothing. */
  lemma PercentLoss(duty: Duty)
    ensures ScaledBack(DutyToPercent(duty)) >= duty as real - 1.27
    ensures duty == 255 ==> ScaledBack(DutyToPercent(duty)) == 255.0
  {
    var p := DutyToPercent(duty);
    assert p * 255 >= duty * 100 - 127;
    assert (p * 255) as real == p as real * 255.0;
  }
}
