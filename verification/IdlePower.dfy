/** The idle-power floor (crates/fw-helper-core/src/telemetry.rs, `observe_sample` and
    `observe_floor`). A reading is `None` when it is not finite. */
module IdlePower {
  import opened Prelude

  /** How many samples make a block. */
  const FLOOR_WINDOW: nat := 30

  datatype MonitorState = MonitorState(floor: FloorWatch, window: seq<real>)

  /** The floor, and a low block waiting for a second one to confirm it. */
  datatype FloorWatch = FloorWatch(watts: Option<real>, pendingLow: Option<real>)

  const UNKNOWN := FloorWatch(None, None)

  /** Readings at or near zero are counter faults. */
  predicate Believable(watts: Option<real>) { watts.Some? && watts.value > 0.05 }

  function AfterBlock(s: FloorWatch, watts: Option<real>): FloorWatch {
    if !Believable(watts) then s
    else if s.watts.None? then s.(watts := watts)
    else if watts.value < s.watts.value then
      if s.pendingLow.Some? then FloorWatch(Some(MaxReal(s.pendingLow.value, watts.value)), None)
      else s.(pendingLow := watts)
    else s.(pendingLow := None)
  }

  function Sum(xs: seq<real>): real {
    if xs == [] then 0.0 else Sum(xs[..|xs| - 1]) + xs[|xs| - 1]
  }

  function Mean(xs: seq<real>): real
    requires xs != []
  {
    Sum(xs) / |xs| as real
  }

  function AfterSample(s: MonitorState, watts: Option<real>): MonitorState {
    if !Believable(watts) then s
    else
      var window := s.window + [watts.value];
      if |window| < FLOOR_WINDOW then s.(window := window)
      else MonitorState(AfterBlock(s.floor, Some(Mean(window))), [])
  }

  class Monitor {
    var wattsFloor: Option<real>
    var pendingLow: Option<real>
    var window: seq<real>

    function State(): MonitorState
      reads this
    {
      MonitorState(FloorWatch(wattsFloor, pendingLow), window)
    }

    constructor ()
      ensures State() == MonitorState(UNKNOWN, [])
    {
      wattsFloor, pendingLow, window := None, None, [];
    }

    method ObserveFloor(watts: Option<real>)
      modifies this
      ensures State() == old(State()).(floor := AfterBlock(old(State()).floor, watts))
    {
      if watts.None? || watts.value <= 0.05 {
        return;
      }
      if wattsFloor.None? {
        wattsFloor := watts;
      } else if watts.value < wattsFloor.value {
        var previous := pendingLow;
        pendingLow := None;
        if previous.Some? {
          // Two lows in a row: the louder of them becomes the floor.
          wattsFloor := Some(MaxReal(previous.value, watts.value));
        } else {
          pendingLow := watts;
        }
      } else {
        pendingLow := None;
      }
    }

    method ObserveSample(watts: Option<real>)
      modifies this
      ensures State() == AfterSample(old(State()), watts)
    {
      if watts.None? || watts.value <= 0.05 {
        return;
      }
      window := window + [watts.value];
      if |window| < FLOOR_WINDOW {
        return;
      }
      var sum := 0.0;
      for i := 0 to |window|
        invariant sum == Sum(window[..i])
      {
        assert window[..i + 1][..i] == window[..i];
        sum := sum + window[i];
      }
      assert window[..|window|] == window;
      var mean := sum / |window| as real;
      window := [];
      ObserveFloor(Some(mean));
    }
  }

  // ------------------------------------------------------------ runs of blocks

  function RunBlocks(means: seq<real>): FloorWatch {
    if means == [] then UNKNOWN
    else AfterBlock(RunBlocks(means[..|means| - 1]), Some(means[|means| - 1]))
  }

  /** A pending low is below the floor it waits to lower. */
  ghost predicate PendingIsLow(s: FloorWatch) {
    s.pendingLow.Some? ==> s.watts.Some? && s.pendingLow.value < s.watts.value
  }

  lemma {:induction false} PendingBelowFloor(means: seq<real>)
    ensures PendingIsLow(RunBlocks(means))
  {
    if means == [] {
    } else {
      PendingBelowFloor(means[..|means| - 1]);
    }
  }

  /** On every run, every change to a known floor lowers it. */
  lemma FloorOnlyFalls(means: seq<real>, mean: real)
    ensures
      var (before, after) := (RunBlocks(means), RunBlocks(means + [mean]));
      before.watts.Some? ==>
        after.watts.Some? && (after.watts == before.watts || after.watts.value < before.watts.value)
  {
    assert (means + [mean])[..|means|] == means;
    PendingBelowFloor(means);
  }

  /** One low block proves nothing, however low: if the first block is at least `x` and no
      two blocks in a row fall below `x`, the floor never falls below `x`. */
  lemma {:induction false} LoneLowsAreIgnored(means: seq<real>, x: real)
    requires means != [] && means[0] >= x
    requires forall i :: 0 <= i < |means| ==> means[i] > 0.05
    requires forall i :: 0 < i < |means| ==> means[i - 1] >= x || means[i] >= x
    ensures
      var s := RunBlocks(means);
      && s.watts.Some? && s.watts.value >= x
      && (s.pendingLow.Some? ==> s.pendingLow.value == means[|means| - 1])
  {
    var n := |means| - 1;
    if n > 0 {
      LoneLowsAreIgnored(means[..n], x);
      assert means[n - 1] >= x || means[n] >= x;
    } else {
      assert RunBlocks(means[..0]) == UNKNOWN;
    }
  }

  // ----------------------------------------------------------- runs of samples

  function RunSamples(samples: seq<Option<real>>): MonitorState {
    if samples == [] then MonitorState(UNKNOWN, [])
    else AfterSample(RunSamples(samples[..|samples| - 1]), samples[|samples| - 1])
  }

  /** The samples that count, in order. */
  function Accepted(samples: seq<Option<real>>): seq<real> {
    if samples == [] then []
    else
      var (before, last) := (samples[..|samples| - 1], samples[|samples| - 1]);
      if Believable(last) then Accepted(before) + [last.value] else Accepted(before)
  }

  /** The means of the first `n` whole blocks of `xs`. */
  function BlockMeans(xs: seq<real>, n: nat): (means: seq<real>)
    requires n * FLOOR_WINDOW <= |xs|
    ensures |means| == n
  {
    if n == 0 then []
    else BlockMeans(xs, n - 1) + [Mean(xs[(n - 1) * FLOOR_WINDOW..n * FLOOR_WINDOW])]
  }

  lemma {:induction false} BlockMeansExtend(xs: seq<real>, x: real, n: nat)
    requires n * FLOOR_WINDOW <= |xs|
    ensures BlockMeans(xs + [x], n) == BlockMeans(xs, n)
  {
    if n == 0 {
    } else {
      BlockMeansExtend(xs, x, n - 1);
      assert (xs + [x])[(n - 1) * FLOOR_WINDOW..n * FLOOR_WINDOW] == xs[(n - 1) * FLOOR_WINDOW..n * FLOOR_WINDOW];
    }
  }

  /** One more accepted sample either waits in the window or completes a block. */
  lemma SampleJoinsBlocks(xs: seq<real>, x: real)
    ensures
      var (m, n) := (|xs| / FLOOR_WINDOW, (|xs| + 1) / FLOOR_WINDOW);
      var window := xs[m * FLOOR_WINDOW..] + [x];
      var xs' := xs + [x];
      && (|window| < FLOOR_WINDOW ==>
            n == m && BlockMeans(xs', n) == BlockMeans(xs, m) && xs'[n * FLOOR_WINDOW..] == window)
      && (|window| >= FLOOR_WINDOW ==>
            n == m + 1 && BlockMeans(xs', n) == BlockMeans(xs, m) + [Mean(window)] && xs'[n * FLOOR_WINDOW..] == [])
  {
    hide Mean;
    var m := |xs| / FLOOR_WINDOW;
    var xs' := xs + [x];
    var window := xs[m * FLOOR_WINDOW..] + [x];
    assert window == xs'[m * FLOOR_WINDOW..];
    BlockMeansExtend(xs, x, m);
    if |window| >= FLOOR_WINDOW {
      assert |xs'| == (m + 1) * FLOOR_WINDOW;
      assert xs'[m * FLOOR_WINDOW..(m + 1) * FLOOR_WINDOW] == window;
    }
  }

  /** The tracker is exactly a run over the averages of non-overlapping blocks of thirty
      accepted samples, with the remainder waiting in the window. */
  lemma {:induction false} SamplesAreBlocks(samples: seq<Option<real>>)
    ensures
      var xs := Accepted(samples);
      var n := |xs| / FLOOR_WINDOW;
      RunSamples(samples) == MonitorState(RunBlocks(BlockMeans(xs, n)), xs[n * FLOOR_WINDOW..])
  {
    hide Mean, BlockMeans, AfterBlock;
    if samples != [] {
      var (before, last) := (samples[..|samples| - 1], samples[|samples| - 1]);
      SamplesAreBlocks(before);
      if Believable(last) {
        var xs := Accepted(before);
        SampleJoinsBlocks(xs, last.value);
        var means := BlockMeans(xs, |xs| / FLOOR_WINDOW);
        var window := xs[|xs| / FLOOR_WINDOW * FLOOR_WINDOW..] + [last.value];
        assert (means + [Mean(window)])[..|means|] == means;
      }
    } else {
      NoBlocks();
    }
  }

  lemma NoBlocks()
    ensures BlockMeans([], 0) == []
  {}

  lemma {:induction false} SumAbove(xs: seq<real>, low: real)
    requires forall k :: 0 <= k < |xs| ==> xs[k] > low
    ensures xs != [] ==> Sum(xs) > low * |xs| as real
  {
    var n := |xs| - 1;
    if xs == [] {
    } else if n == 0 {
      assert Sum(xs) == Sum(xs[..0]) + xs[0];
    } else {
      SumAbove(xs[..n], low);
    }
  }

  lemma MeanAbove(xs: seq<real>, low: real)
    requires xs != [] && forall k :: 0 <= k < |xs| ==> xs[k] > low
    ensures Mean(xs) > low
  {
    SumAbove(xs, low);
    var n := |xs| as real;
    assert Mean(xs) * n == Sum(xs);
    MulOrder(low, Mean(xs), n);
  }

  lemma {:induction false} AcceptedAreBelievable(samples: seq<Option<real>>)
    ensures forall k :: 0 <= k < |Accepted(samples)| ==> Accepted(samples)[k] > 0.05
  {
    if samples == [] {
    } else {
      AcceptedAreBelievable(samples[..|samples| - 1]);
    }
  }

  lemma {:induction false} BlockMeansBelievable(xs: seq<real>, n: nat)
    requires n * FLOOR_WINDOW <= |xs| && forall k :: 0 <= k < |xs| ==> xs[k] > 0.05
    ensures forall i :: 0 <= i < n ==> BlockMeans(xs, n)[i] > 0.05
  {
    hide Mean;
    if n == 0 {
    } else {
      BlockMeansBelievable(xs, n - 1);
      MeanAbove(xs[(n - 1) * FLOOR_WINDOW..n * FLOOR_WINDOW], 0.05);
    }
  }

  /** The same of the samples themselves, refused ones included: group the accepted ones in
      thirties, and if the first group averages at least `x` and no two in a row average
      below it, the floor is never below `x`. */
  lemma LoneQuietBlocksAreIgnored(samples: seq<Option<real>>, x: real)
    requires |Accepted(samples)| >= FLOOR_WINDOW
    requires
      var means := BlockMeans(Accepted(samples), |Accepted(samples)| / FLOOR_WINDOW);
      means[0] >= x && forall i :: 0 < i < |means| ==> means[i - 1] >= x || means[i] >= x
    ensures
      var floor := RunSamples(samples).floor.watts;
      floor.Some? && floor.value >= x
  {
    hide Mean, BlockMeans;
    var xs := Accepted(samples);
    SamplesAreBlocks(samples);
    AcceptedAreBelievable(samples);
    BlockMeansBelievable(xs, |xs| / FLOOR_WINDOW);
    LoneLowsAreIgnored(BlockMeans(xs, |xs| / FLOOR_WINDOW), x);
  }

  /** Two low blocks do lower it, to the louder of the two: after a block that is not low, two in
      a row below the floor. */
  lemma TwoLowsLowerTheFloor(means: seq<real>, a: real, b: real)
    requires means != [] && (forall k :: 0 <= k < |means| ==> means[k] > 0.05) && a > 0.05 && b > 0.05
    requires
      var floor := RunBlocks(means).watts;
      floor.Some? && means[|means| - 1] >= floor.value && a < floor.value && b < floor.value
    ensures RunBlocks(means + [a]).watts == RunBlocks(means).watts
    ensures RunBlocks(means + [a] + [b]).watts == Some(if a >= b then a else b)
    ensures RunBlocks(means + [a] + [b]).pendingLow.None?
  {
    PendingIsLast(means);
    PendingBelowFloor(means);
    OneMoreBlock(means, a);
    OneMoreBlock(means + [a], b);
    hide RunBlocks;
  }

  lemma OneMoreBlock(means: seq<real>, mean: real)
    ensures RunBlocks(means + [mean]) == AfterBlock(RunBlocks(means), Some(mean))
  {
    hide AfterBlock;
    assert (means + [mean])[..|means|] == means;
  }

  /** What is pending is the last block. */
  lemma PendingIsLast(means: seq<real>)
    requires means != [] && forall k :: 0 <= k < |means| ==> means[k] > 0.05
    ensures RunBlocks(means).pendingLow.Some? ==> RunBlocks(means).pendingLow.value == means[|means| - 1]
  {}

  /** The first block is the first floor. */
  lemma FirstBlockIsTheFloor(mean: real)
    requires mean > 0.05
    ensures RunBlocks([mean]) == FloorWatch(Some(mean), None)
  {
    assert [mean][..0] == [];
  }

  /** The blocks are of thirty, end to end. */
  lemma {:induction false} BlocksAreOfThirty(xs: seq<real>, n: nat, i: nat)
    requires n * FLOOR_WINDOW <= |xs| && i < n
    ensures 30 * i + 30 <= |xs| && BlockMeans(xs, n)[i] == Mean(xs[30 * i..30 * i + 30])
  {
    hide Mean;
    if i == n - 1 {
    } else {
      BlocksAreOfThirty(xs, n - 1, i);
    }
  }
}
