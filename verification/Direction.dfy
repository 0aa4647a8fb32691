/** Heating or cooling: a Schmitt trigger over a quantized sensor
    (crates/fw-helper-core/src/floor.rs, `Direction`). */
module Direction {
  import opened Prelude

  /** Sustained change, in degrees, before the direction may flip. */
  const DIRECTION_HYSTERESIS_C: real := 2.0

  datatype DirectionState = DirectionState(rising: bool, trough: Option<real>, peak: Option<real>)

  const COLD_START := DirectionState(false, None, None)

  function LowestOf(extreme: Option<real>, c: real): real {
    if extreme.Some? then MinReal(extreme.value, c) else c
  }

  function HighestOf(extreme: Option<real>, c: real): real {
    if extreme.Some? then MaxReal(extreme.value, c) else c
  }

  /** What one finite reading does. */
  function Feed(s: DirectionState, c: real): DirectionState {
    var (trough, peak) := (LowestOf(s.trough, c), HighestOf(s.peak, c));
    if !s.rising && c >= trough + DIRECTION_HYSTERESIS_C then DirectionState(true, None, Some(c))
    else if s.rising && c <= peak - DIRECTION_HYSTERESIS_C then DirectionState(false, Some(c), None)
    else if s.rising then s.(peak := Some(peak))
    else s.(trough := Some(trough))
  }

  /** What one sample does: missing and non-finite readings change nothing. */
  function AfterReading(s: DirectionState, reading: Option<Celsius>): DirectionState {
    match reading
    case Some(Finite(c)) => Feed(s, c)
    case _ => s
  }

  class Direction {
    var rising: bool
    var trough: Option<real>
    var peak: Option<real>

    function State(): DirectionState
      reads this
    {
      DirectionState(rising, trough, peak)
    }

    constructor ()
      ensures State() == COLD_START
    {
      rising, trough, peak := false, None, None;
    }

    method Update(reading: Option<Celsius>) returns (r: bool)
      modifies this
      ensures State() == AfterReading(old(State()), reading)
      ensures r == rising
    {
      if reading.None? || reading.value.NonFinite? {
        return rising;
      }
      var c := reading.value.celsius;
      var low := LowestOf(trough, c);
      var high := HighestOf(peak, c);
      if !rising && c >= low + DIRECTION_HYSTERESIS_C {
        rising := true;
        peak := Some(c);
        trough := None;
      } else if rising && c <= high - DIRECTION_HYSTERESIS_C {
        rising := false;
        trough := Some(c);
        peak := None;
      } else if rising {
        peak := Some(high);
      } else {
        trough := Some(low);
      }
      r := rising;
    }
  }

  // ------------------------------------------------------- runs of readings

  function Run(s: DirectionState, readings: seq<real>): DirectionState {
    if readings == [] then s
    else Feed(Run(s, readings[..|readings| - 1]), readings[|readings| - 1])
  }

  /** How often the direction changed. */
  function Flips(s: DirectionState, readings: seq<real>): nat {
    if readings == [] then 0
    else
      var before := readings[..|readings| - 1];
      Flips(s, before) + (if Run(s, readings).rising != Run(s, before).rising then 1 else 0)
  }

  /** Where the readings since the last flip begin. */
  function SinceFlip(s: DirectionState, readings: seq<real>): (k: nat)
    ensures k <= |readings|
    ensures readings != [] ==> k < |readings|
  {
    if readings == [] then 0
    else
      var before := readings[..|readings| - 1];
      if Run(s, readings).rising != Run(s, before).rising then |readings| - 1
      else if before == [] then 0
      else SinceFlip(s, before)
  }

  /** How far the readings moved in all. */
  function TotalVariation(readings: seq<real>): real {
    if |readings| <= 1 then 0.0
    else
      var n := |readings|;
      TotalVariation(readings[..n - 1]) + AbsReal(readings[n - 1] - readings[n - 2])
  }

  ghost predicate IsLowest(x: real, readings: seq<real>) {
    x in readings && forall c :: c in readings ==> x <= c
  }

  ghost predicate IsHighest(x: real, readings: seq<real>) {
    x in readings && forall c :: c in readings ==> c <= x
  }

  /** From a cold start, the one live extreme is exactly the extreme of the readings since
      the last flip: the peak while rising, the trough while falling. */
  lemma {:induction false} ExtremeSinceFlip(readings: seq<real>)
    requires readings != []
    ensures
      var s := Run(COLD_START, readings);
      var recent := readings[SinceFlip(COLD_START, readings)..];
      if s.rising then s.trough.None? && s.peak.Some? && IsHighest(s.peak.value, recent)
      else s.peak.None? && s.trough.Some? && IsLowest(s.trough.value, recent)
  {
    var n := |readings| - 1;
    var (before, c) := (readings[..n], readings[n]);
    var k := SinceFlip(COLD_START, readings);
    if before == [] {
      assert Run(COLD_START, before) == COLD_START;
      assert readings[k..] == [c];
    } else {
      ExtremeSinceFlip(before);
      if k == n {
        assert readings[k..] == [c];
      } else {
        assert readings[k..] == before[k..] + [c];
      }
    }
  }

  /** Distance already covered toward the next flip. */
  ghost function Progress(s: DirectionState, last: real): real {
    if s.rising && s.peak.Some? then s.peak.value - last
    else if !s.rising && s.trough.Some? then last - s.trough.value
    else 0.0
  }

  /** Each flip costs two degrees of movement, and progress toward the next is paid for. */
  lemma {:induction false} FlipsCostVariation(readings: seq<real>)
    requires readings != []
    ensures
      2.0 * Flips(COLD_START, readings) as real
      + Progress(Run(COLD_START, readings), readings[|readings| - 1])
      <= TotalVariation(readings)
  {
    var n := |readings| - 1;
    var before := readings[..n];
    if before == [] {
      assert Run(COLD_START, before) == COLD_START && Flips(COLD_START, before) == 0;
    } else {
      FlipsCostVariation(before);
      ExtremeSinceFlip(before);
      assert readings[n - 1] == before[n - 1];
    }
  }

  /** Two degrees of total movement are needed for every change of direction. */
  lemma FlipsBoundedByVariation(readings: seq<real>)
    ensures 2.0 * Flips(COLD_START, readings) as real <= TotalVariation(readings)
  {
    if readings != [] {
      FlipsCostVariation(readings);
      ExtremeSinceFlip(readings);
      var s := Run(COLD_START, readings);
      var recent := readings[SinceFlip(COLD_START, readings)..];
      assert recent[|recent| - 1] == readings[|readings| - 1];
      assert readings[|readings| - 1] in recent;
    }
  }

  /** A reading within two degrees of every live extreme leaves the direction alone. */
  ghost predicate Jitter(s: DirectionState, low: real, high: real) {
    && high - low < DIRECTION_HYSTERESIS_C
    && (s.trough.Some? ==> low <= s.trough.value <= high)
    && (s.peak.Some? ==> low <= s.peak.value <= high)
  }

  /** Jitter confined to a band under two degrees wide never flips the direction, in
      whatever state it starts. */
  lemma {:induction false} JitterNeverFlips(s: DirectionState, readings: seq<real>, low: real, high: real)
    requires Jitter(s, low, high)
    requires forall c :: c in readings ==> low <= c <= high
    ensures Flips(s, readings) == 0
    ensures Run(s, readings).rising == s.rising && Jitter(Run(s, readings), low, high)
  {
    if readings == [] {
    } else {
      var n := |readings| - 1;
      assert readings[n] in readings && forall c :: c in readings[..n] ==> c in readings;
      JitterNeverFlips(s, readings[..n], low, high);
    }
  }

  // --------------------------------------------------- exactly when it changes

  /** The readings since the last change of direction. */
  function Recent(readings: seq<real>): seq<real> { readings[SinceFlip(COLD_START, readings)..] }

  /** Rising means nothing since the last flip is two degrees or more above the latest reading,
      falling that nothing is two or more below it: no move that large goes unanswered. */
  lemma NoMoveUnanswered(readings: seq<real>)
    requires readings != []
    ensures
      var last := readings[|readings| - 1];
      forall c :: c in Recent(readings) ==>
        if Run(COLD_START, readings).rising then c < last + 2.0 else c > last - 2.0
  {
    var n := |readings| - 1;
    var s := Run(COLD_START, readings);
    ExtremeSinceFlip(readings);
    if readings[..n] != [] { ExtremeSinceFlip(readings[..n]); }
  }

  /** A flip happens exactly at the reading that moves two degrees, the wrong way for the
      direction, from some reading since the last flip. */
  lemma FlipsExactlyOnTwoDegrees(readings: seq<real>, c: real)
    requires readings != []
    ensures
      var rising := Run(COLD_START, readings).rising;
      Run(COLD_START, readings + [c]).rising != rising <==>
        exists x :: x in Recent(readings) && (if rising then c <= x - 2.0 else c >= x + 2.0)
  {
    assert (readings + [c])[..|readings|] == readings;
    ExtremeSinceFlip(readings);
    var s := Run(COLD_START, readings);
    var extreme := if s.rising then s.peak.value else s.trough.value;
    assert extreme in Recent(readings);
  }

  /** A cold start reads as falling, and one reading does not change that. */
  lemma StartsFalling(c: real)
    ensures !Run(COLD_START, []).rising && !Run(COLD_START, [c]).rising
  {
    assert [c][..0] == [];
  }

  /** The readings that exist and are finite. */
  function Readable(readings: seq<Option<Celsius>>): seq<real> {
    if readings == [] then []
    else
      var (before, last) := (readings[..|readings| - 1], readings[|readings| - 1]);
      if last.Some? && last.value.Finite? then Readable(before) + [last.value.celsius] else Readable(before)
  }

  function Fed(s: DirectionState, readings: seq<Option<Celsius>>): DirectionState {
    if readings == [] then s
    else AfterReading(Fed(s, readings[..|readings| - 1]), readings[|readings| - 1])
  }

  /** Readings that are missing or not finite might as well not have been made. */
  lemma {:induction false} OnlyReadableCount(s: DirectionState, readings: seq<Option<Celsius>>)
    ensures Fed(s, readings) == Run(s, Readable(readings))
  {
    hide Feed;
    if readings == [] {
    } else {
      var (before, last) := (readings[..|readings| - 1], readings[|readings| - 1]);
      OnlyReadableCount(s, before);
      if last.Some? && last.value.Finite? {
        assert (Readable(before) + [last.value.celsius])[..|Readable(before)|] == Readable(before);
      }
    }
  }
}
