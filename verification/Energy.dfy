/** Average power from a wrapping energy counter (crates/fw-helper-core/src/energy.rs).
    Energy is in microjoules and time in nanoseconds. */
module Energy {
  import opened Prelude

  const U64_LIMIT: nat := 0x1_0000_0000_0000_0000

  type U64 = n: nat | n < U64_LIMIT

  /** Above this a reading is taken as a missed wrap. */
  const IMPLAUSIBLE_WATTS: real := 200.0

  /** A counter reading and when it was taken. */
  datatype Reading = Reading(energy: U64, at: nat)

  /** The counter's advance since `previous`, allowing for one wrap. */
  function Advance(range: U64, previous: U64, energy: U64): Option<U64> {
    if energy >= previous then Some(energy - previous)
    else if previous > range then None
    else if range - previous + energy >= U64_LIMIT then None
    else Some(range - previous + energy)
  }

  /** Microjoules over nanoseconds, in watts. */
  function Watts(energy: nat, nanos: nat): real
    requires nanos > 0
  {
    (energy as real / 1000000.0) / (nanos as real / 1000000000.0)
  }

  /** What `sample` answers. The reference point always becomes `now`, accepted or not. */
  function Figure(range: U64, maxGap: nat, last: Option<Reading>, now: Reading): Option<real> {
    if last.None? then None
    else
      var dt := Max(now.at - last.value.at, 0);
      if dt == 0 || dt > maxGap then None
      else
        var delta := Advance(range, last.value.energy, now.energy);
        if delta.None? then None
        else
          var watts := Watts(delta.value, dt);
          if watts > IMPLAUSIBLE_WATTS then None else Some(watts)
  }

  class EnergySampler {
    const range: U64
    const maxGap: nat
    var last: Option<Reading>

    constructor (range: U64, maxGap: nat)
      ensures this.range == range && this.maxGap == maxGap && last == None
    {
      this.range, this.maxGap, last := range, maxGap, None;
    }

    /** Drop the reference point. */
    method Invalidate()
      modifies this
      ensures last == None
    {
      last := None;
    }

    method Sample(energy: U64, now: nat) returns (watts: Option<real>)
      modifies this
      ensures watts == Figure(range, maxGap, old(last), Reading(energy, now))
      ensures last == Some(Reading(energy, now))
    {
      var previous := last;
      last := Some(Reading(energy, now));
      if previous.None? {
        return None;
      }
      var dt := if now >= previous.value.at then now - previous.value.at else 0;
      if dt == 0 || dt > maxGap {
        return None;
      }
      var delta: U64;
      if energy >= previous.value.energy {
        delta := energy - previous.value.energy;
      } else {
        if previous.value.energy > range {
          return None;
        }
        var wrapped := range - previous.value.energy + energy;
        if wrapped >= U64_LIMIT {
          return None;
        }
        delta := wrapped;
      }
      var w := Watts(delta, dt);
      if w > IMPLAUSIBLE_WATTS {
        return None;
      }
      return Some(w);
    }
  }

  // ------------------------------------------------- against the true energy

  /** The true energy drawn so far, which the counter shows modulo its range. */
  datatype Truth = Truth(energy: nat, at: nat)

  function Shown(range: U64, t: Truth): Reading
    requires range > 0
  {
    Reading(t.energy % range, t.at)
  }

  /** Energy never falls and is never drawn faster than 200 W. */
  predicate Plausible(a: Truth, b: Truth) {
    a.energy <= b.energy && a.at <= b.at && (b.energy - a.energy) * 1000 <= 200 * (b.at - a.at)
  }

  /** The counter cannot wrap twice inside an accepted gap. */
  predicate GapFitsRange(range: U64, maxGap: nat) { 200 * maxGap < range * 1000 }

  lemma WattsTimesTime(energy: nat, nanos: nat)
    requires nanos > 0
    ensures Watts(energy, nanos) * nanos as real == energy as real * 1000.0
  {
    var (e, t) := (energy as real / 1000000.0, nanos as real / 1000000000.0);
    assert t > 0.0 && (e / t) * t == e;
    assert nanos as real == t * 1000000000.0;
  }

  lemma MultipleAtLeast(d: int, range: nat, n: int)
    requires range > 0 && d >= n
    ensures d * range >= n * range
  {}

  /** Two numbers less than a range apart differ by at most one in their quotients. */
  lemma QuotientsClose(qa: int, qb: int, ra: int, rb: int, range: nat)
    requires 0 <= ra < range && 0 <= rb < range
    requires 0 <= (qb * range + rb) - (qa * range + ra) < range
    ensures qb == qa || qb == qa + 1
    ensures (qb - qa) * range == qb * range - qa * range
  {
    var d := qb - qa;
    assert d * range == qb * range - qa * range;
    if d >= 2 { MultipleAtLeast(d, range, 2); }
    if d <= -1 { MultipleAtLeast(-d, range, 1); }
  }

  /** Less than one range of advance is recovered exactly, across a wrap or not. */
  lemma AdvanceIsExact(range: U64, a: nat, b: nat)
    requires range > 0 && a <= b && b - a < range
    ensures Advance(range, a % range, b % range) == Some(b - a)
  {
    var (qa, qb, ra, rb) := (a / range, b / range, a % range, b % range);
    QuotientsClose(qa, qb, ra, rb, range);
    if qb == qa {
      assert rb - ra == b - a;
    } else {
      assert (qb - qa) * range == range;
      assert range + rb - ra == b - a;
    }
  }

  /** Energy drawn within the power bound over an accepted gap reads as no more than the
      plausible power, and is less than the counter's range. */
  lemma PlausibleFits(range: U64, maxGap: nat, delta: nat, dt: nat)
    requires GapFitsRange(range, maxGap) && 0 < dt <= maxGap && delta * 1000 <= 200 * dt
    ensures delta < range && Watts(delta, dt) <= IMPLAUSIBLE_WATTS
  {
    hide Watts;
    WattsTimesTime(delta, dt);
    var (watts, energy, nanos) := (Watts(delta, dt), delta as real, dt as real);
    assert energy * 1000.0 <= 200.0 * nanos by {
      assert (delta * 1000) as real == energy * 1000.0 && (200 * dt) as real == 200.0 * nanos;
    }
    AtMost200(watts, energy, nanos);
  }

  lemma AtMost200(watts: real, energy: real, nanos: real)
    requires nanos > 0.0 && watts * nanos == energy * 1000.0 <= 200.0 * nanos
    ensures watts <= 200.0
  {
    MulOrder(watts, 200.0, nanos);
  }

  /** A sample is accepted exactly when its gap is, and what it reports is the exact average
      power over the gap. */
  lemma AcceptedIsExact(range: U64, maxGap: nat, a: Truth, b: Truth)
    requires range > 0 && GapFitsRange(range, maxGap) && Plausible(a, b)
    ensures
      var figure := Figure(range, maxGap, Some(Shown(range, a)), Shown(range, b));
      && (figure.Some? <==> 0 < b.at - a.at <= maxGap)
      && (figure.Some? ==> figure.value * (b.at - a.at) as real == (b.energy - a.energy) as real * 1000.0)
  {
    hide Watts, Advance;
    var dt := b.at - a.at;
    if 0 < dt <= maxGap {
      var delta := b.energy - a.energy;
      PlausibleFits(range, maxGap, delta, dt);
      AdvanceIsExact(range, a.energy, b.energy);
      WattsTimesTime(delta, dt);
    }
  }

  /** Whatever the readings, nothing is reported without a reference, over no time, over too
      long, or above 200 W; and everything else that advanced is. */
  lemma ReportedExactlyWhen(range: U64, maxGap: nat, last: Option<Reading>, now: Reading)
    ensures
      var figure := Figure(range, maxGap, last, now);
      && (figure.Some? ==> figure.value <= 200.0)
      && (last.None? ==> figure.None?)
      && (last.Some? && !(0 < now.at - last.value.at <= maxGap) ==> figure.None?)
      && (last.Some? && 0 < now.at - last.value.at <= maxGap && last.value.energy <= now.energy ==>
            (figure.Some? <==> (now.energy - last.value.energy) * 1000 <= 200 * (now.at - last.value.at)))
  {
    if last.Some? && 0 < now.at - last.value.at <= maxGap && last.value.energy <= now.energy {
      PowerCapped(now.energy - last.value.energy, now.at - last.value.at);
    }
  }

  lemma PowerCapped(energy: nat, nanos: nat)
    requires nanos > 0
    ensures Watts(energy, nanos) <= IMPLAUSIBLE_WATTS <==> energy * 1000 <= 200 * nanos
  {
    hide Watts;
    WattsTimesTime(energy, nanos);
    AtMost200Exactly(Watts(energy, nanos), energy as real, nanos as real);
    ScaledOrder(energy, nanos);
  }

  lemma AtMost200Exactly(watts: real, energy: real, nanos: real)
    requires nanos > 0.0 && watts * nanos == energy * 1000.0
    ensures watts <= 200.0 <==> energy * 1000.0 <= 200.0 * nanos
  {
    MulOrder(watts, 200.0, nanos);
  }

  lemma ScaledOrder(energy: nat, nanos: nat)
    ensures energy as real * 1000.0 <= 200.0 * nanos as real <==> energy * 1000 <= 200 * nanos
  {
    assert (energy * 1000) as real == energy as real * 1000.0;
    assert (200 * nanos) as real == 200.0 * nanos as real;
  }

  /** Watts times time across one gap, as the sampler reports it; an unreported gap
      contributes nothing. */
  function Contribution(range: U64, maxGap: nat, a: Truth, b: Truth): real
    requires range > 0
  {
    var figure := Figure(range, maxGap, Some(Shown(range, a)), Shown(range, b));
    if figure.Some? then figure.value * Max(b.at - a.at, 0) as real else 0.0
  }

  function Reported(range: U64, maxGap: nat, truths: seq<Truth>): real
    requires range > 0
  {
    if |truths| <= 1 then 0.0
    else
      var n := |truths| - 1;
      Reported(range, maxGap, truths[..n]) + Contribution(range, maxGap, truths[n - 1], truths[n])
  }

  ghost predicate AcceptedStep(maxGap: nat, a: Truth, b: Truth) {
    Plausible(a, b) && 0 < b.at - a.at <= maxGap
  }

  /** Over consecutively accepted samples, watts times time sums to the energy consumed. */
  lemma {:induction false} ReportsSumToEnergy(range: U64, maxGap: nat, truths: seq<Truth>)
    requires range > 0 && GapFitsRange(range, maxGap) && truths != []
    requires forall i :: 0 < i < |truths| ==> AcceptedStep(maxGap, truths[i - 1], truths[i])
    ensures Reported(range, maxGap, truths)
         == truths[|truths| - 1].energy as real * 1000.0 - truths[0].energy as real * 1000.0
  {
    hide Figure, GapFitsRange, Plausible, Contribution;
    var n := |truths| - 1;
    if n == 0 {
    } else {
      var before := truths[..n];
      assert before[n - 1] == truths[n - 1] && before[0] == truths[0];
      forall i | 0 < i < n ensures AcceptedStep(maxGap, before[i - 1], before[i]) {
        assert AcceptedStep(maxGap, truths[i - 1], truths[i]);
      }
      ReportsSumToEnergy(range, maxGap, before);
      StepContributes(range, maxGap, truths[n - 1], truths[n]);
    }
  }

  lemma StepContributes(range: U64, maxGap: nat, a: Truth, b: Truth)
    requires range > 0 && GapFitsRange(range, maxGap) && AcceptedStep(maxGap, a, b)
    ensures Contribution(range, maxGap, a, b) == b.energy as real * 1000.0 - a.energy as real * 1000.0
  {
    hide Figure;
    AcceptedIsExact(range, maxGap, a, b);
  }

  // ------------------------------------------- the average since which reading

  /** The figure at `c`, taken against the reference `b`, is the exact average since `a`. */
  ghost predicate AveragesSince(range: U64, maxGap: nat, a: Truth, b: Truth, c: Truth)
    requires range > 0
  {
    var figure := Figure(range, maxGap, Some(Shown(range, b)), Shown(range, c));
    figure.Some? && figure.value * (c.at - a.at) as real == (c.energy - a.energy) as real * 1000.0
  }

  /** Two stretches share an average exactly when the whole has the average of the second. */
  lemma SharedAverage(v: real, e1: real, t1: real, e2: real, t2: real)
    requires t2 > 0.0 && v * t2 == e2 * 1000.0
    ensures v * (t1 + t2) == (e1 + e2) * 1000.0 <==> e2 * t1 == e1 * t2
  {
    assert v * (t1 + t2) == v * t1 + v * t2;
    assert (v * t1) * t2 == (v * t2) * t1 == (e2 * t1) * 1000.0;
    assert (e1 * 1000.0) * t2 == (e1 * t2) * 1000.0;
    MulOrder(v * t1, e1 * 1000.0, t2);
    MulOrder(e1 * 1000.0, v * t1, t2);
  }

  /** The reference is the last reading, accepted or not, so an accepted figure is the
      average since that reading; it is also the average since an earlier one exactly when
      the power drawn between the two was the same. */
  lemma AveragesSinceExactly(range: U64, maxGap: nat, a: Truth, b: Truth, c: Truth)
    requires range > 0 && GapFitsRange(range, maxGap)
    requires a.energy <= b.energy && a.at <= b.at && Plausible(b, c) && 0 < c.at - b.at <= maxGap
    ensures AveragesSince(range, maxGap, a, b, c) <==>
      (c.energy - b.energy) * (b.at - a.at) == (b.energy - a.energy) * (c.at - b.at)
    ensures a == b ==> AveragesSince(range, maxGap, a, b, c)
  {
    AcceptedIsExact(range, maxGap, b, c);
    hide Figure, Plausible, GapFitsRange;
    var v := Figure(range, maxGap, Some(Shown(range, b)), Shown(range, c)).value;
    SharedWholeAverage(v, b.energy - a.energy, b.at - a.at, c.energy - b.energy, c.at - b.at);
  }

  lemma SharedWholeAverage(v: real, e1: int, t1: int, e2: int, t2: int)
    requires t2 > 0 && v * t2 as real == e2 as real * 1000.0
    ensures v * (t1 + t2) as real == (e1 + e2) as real * 1000.0 <==> e2 * t1 == e1 * t2
  {
    SharedAverage(v, e1 as real, t1 as real, e2 as real, t2 as real);
    ProductAsReal(e2, t1);
    ProductAsReal(e1, t2);
  }

  lemma ProductAsReal(x: int, y: int)
    ensures (x * y) as real == x as real * y as real
  {}

  /** A refused reading moves the reference: after two seconds at half a watt, one too long to
      accept, and one second at ten, the sampler answers ten watts, where the average since
      the last accepted reading is under four. */
  lemma RefusedReadingMovesReference()
    ensures
      var range: U64 := 1_000_000_000;
      var maxGap := 1_500_000_000;
      var (a, b, c) := (Truth(0, 0), Truth(1_000_000, 2_000_000_000), Truth(11_000_000, 3_000_000_000));
      && GapFitsRange(range, maxGap) && Plausible(a, b) && Plausible(b, c)
      && Figure(range, maxGap, Some(Shown(range, a)), Shown(range, b)) == None
      && Figure(range, maxGap, Some(Shown(range, b)), Shown(range, c)) == Some(10.0)
      && !AveragesSince(range, maxGap, a, b, c)
      && Watts(c.energy - a.energy, c.at - a.at) < 4.0
  {}
}
