/** The firmware floor: never quieter than the EC would be
    (crates/fw-helper-core/src/floor.rs, `FirmwareFloor`). */
module Floor {
  import opened Prelude
  import opened Board
  import opened FanScale
  import opened FloorModel

  const BUCKETS: nat := 40
  const BUCKET_C: real := 2.0
  const BUCKET_BASE_C: real := 30.0

  /** What each bucket has learned: the loudest duty seen there, or nothing yet. */
  type Table = t: seq<Option<Duty>> | |t| == BUCKETS witness Nothing(BUCKETS)

  function Nothing(n: nat): seq<Option<Duty>> { seq(n, i => None) }

  /** The learned table and the count of changes made to it. */
  datatype FloorState = FloorState(table: Table, revision: nat)

  const FRESH := FloorState(Nothing(BUCKETS), 0)

  function Bucket(celsius: Celsius): (b: Option<nat>)
    ensures b.Some? ==> b.value < BUCKETS
  {
    if celsius.NonFinite? || celsius.celsius < BUCKET_BASE_C then None
    else
      var idx := ((celsius.celsius - BUCKET_BASE_C) / BUCKET_C).Floor;
      if idx < BUCKETS then Some(idx) else None
  }

  function AfterRecord(s: FloorState, i: nat, duty: Duty): FloorState
    requires i < BUCKETS
  {
    if s.table[i].None? || duty > s.table[i].value
    then FloorState(s.table[i := Some(duty)], s.revision + 1)
    else s
  }

  /** Record one duty in buckets `a` up to but not including `b`. */
  function RecordRange(s: FloorState, a: nat, b: nat, duty: Duty): FloorState
    requires a <= b <= BUCKETS
    decreases b
  {
    if a == b then s else AfterRecord(RecordRange(s, a, b - 1, duty), b - 1, duty)
  }

  /** The cooler end first. A comparison with an unreadable end is false, as for a NaN. */
  function Ordered(a: Celsius, b: Celsius): (Celsius, Celsius) {
    if a.Finite? && b.Finite? && a.celsius <= b.celsius then (a, b) else (b, a)
  }

  function RecordIfTracked(s: FloorState, bucket: Option<nat>, duty: Duty): FloorState
    requires bucket.Some? ==> bucket.value < BUCKETS
  {
    if bucket.Some? then AfterRecord(s, bucket.value, duty) else s
  }

  function AfterSpan(s: FloorState, from: Celsius, to: Celsius, duty: Duty, rising: bool): FloorState {
    if !rising then s
    else
      var (lo, hi) := Ordered(from, to);
      var (a, b) := (Bucket(lo), Bucket(hi));
      if a.Some? && b.Some? then
        OrderedBuckets(from, to);
        RecordRange(s, a.value, b.value + 1, duty)
      else RecordIfTracked(RecordIfTracked(s, a, duty), b, duty)
  }

  function AfterRestore(s: FloorState, observations: seq<(Celsius, Duty)>): FloorState {
    if observations == [] then s
    else
      var n := |observations| - 1;
      RecordIfTracked(AfterRestore(s, observations[..n]), Bucket(observations[n].0), observations[n].1)
  }

  /** Every observation, at the low edge of its bucket, from bucket `i` on. */
  function ObservationsFrom(t: Table, i: nat): seq<(Celsius, Duty)>
    requires i <= BUCKETS
    decreases BUCKETS - i
  {
    if i == BUCKETS then []
    else
      (if t[i].Some? then [(Finite(LowEdge(i)), t[i].value)] else [])
      + ObservationsFrom(t, i + 1)
  }

  function Observations(t: Table): seq<(Celsius, Duty)> { ObservationsFrom(t, 0) }

  function LowEdge(i: nat): real { BUCKET_BASE_C + i as real * BUCKET_C }

  function ObservedDuty(t: Table, celsius: Celsius): Option<Duty> {
    var b := Bucket(celsius);
    if b.Some? then t[b.value] else None
  }

  /** The lowest duty that may be held at this temperature. */
  function FloorDuty(p: BoardProfile, t: Table, celsius: Celsius): Duty
    requires |p.dutyRpm| > 0 && |p.firmwareCurve| > 0
  {
    if celsius.NonFinite? then 255
    else
      var observed := ObservedDuty(t, celsius);
      if observed.Some? then (if observed.value == 0 then 0 else WithMargin(observed.value))
      else ModelledFloor(p, celsius)
  }

  lemma OrderedBuckets(from: Celsius, to: Celsius)
    ensures
      var (lo, hi) := Ordered(from, to);
      Bucket(lo).Some? && Bucket(hi).Some? ==> Bucket(lo).value <= Bucket(hi).value
  {}

  // ---------------------------------------------------------------- the class

  class FirmwareFloor {
    const observed: array<Duty>
    const seen: array<bool>
    var revision: nat
    const profile: BoardProfile

    ghost predicate Valid()
      reads this, observed, seen
    {
      && observed.Length == BUCKETS && seen.Length == BUCKETS
      && |profile.dutyRpm| > 0 && |profile.firmwareCurve| > 0
    }

    function Contents(): (t: Table)
      requires Valid()
      reads this, observed, seen
    {
      seq(BUCKETS, i requires 0 <= i < BUCKETS && Valid() reads this, observed, seen =>
        if seen[i] then Some(observed[i]) else None)
    }

    function State(): FloorState
      requires Valid()
      reads this, observed, seen
    {
      FloorState(Contents(), revision)
    }

    constructor ForBoard(profile: BoardProfile)
      requires |profile.dutyRpm| > 0 && |profile.firmwareCurve| > 0
      ensures Valid() && State() == FRESH && this.profile == profile
      ensures fresh(observed) && fresh(seen)
    {
      observed := new Duty[BUCKETS](i => 0);
      seen := new bool[BUCKETS](i => false);
      revision := 0;
      this.profile := profile;
    }

    method Record(i: nat, duty: Duty)
      requires Valid() && i < BUCKETS
      modifies this, observed, seen
      ensures Valid() && State() == AfterRecord(old(State()), i, duty)
    {
      if !seen[i] || duty > observed[i] {
        observed[i] := duty;
        seen[i] := true;
        revision := revision + 1;
      }
      assert Contents() == AfterRecord(old(State()), i, duty).table;
    }

    method ObserveSpan(from: Celsius, to: Celsius, duty: Duty, rising: bool)
      requires Valid()
      modifies this, observed, seen
      ensures Valid() && State() == AfterSpan(old(State()), from, to, duty, rising)
    {
      if !rising {
        return;
      }
      var (lo, hi) := Ordered(from, to);
      var a, b := Bucket(lo), Bucket(hi);
      if a.None? || b.None? {
        // A span with one end tracked is credited to that end alone.
        if a.Some? {
          Record(a.value, duty);
        }
        if b.Some? {
          Record(b.value, duty);
        }
        return;
      }
      OrderedBuckets(from, to);
      for i := a.value to b.value + 1
        invariant Valid()
        invariant State() == RecordRange(old(State()), a.value, i, duty)
      {
        Record(i, duty);
      }
    }

    method Restore(observations: seq<(Celsius, Duty)>)
      requires Valid()
      modifies this, observed, seen
      ensures Valid() && State() == AfterRestore(old(State()), observations)
    {
      for k := 0 to |observations|
        invariant Valid()
        invariant State() == AfterRestore(old(State()), observations[..k])
      {
        var bucket := Bucket(observations[k].0);
        if bucket.Some? {
          Record(bucket.value, observations[k].1);
        }
        assert observations[..k + 1][..k] == observations[..k];
      }
      assert observations[..|observations|] == observations;
    }
  }

  // ------------------------------------------------ the table and its history

  /** One thing the floor was told: an observed span, or a restored entry. */
  datatype FloorEvent =
    | Observed(from: Celsius, to: Celsius, duty: Duty, rising: bool)
    | Restored(celsius: Celsius, duty: Duty)

  function Learn(s: FloorState, e: FloorEvent): FloorState {
    match e
    case Observed(from, to, duty, rising) => AfterSpan(s, from, to, duty, rising)
    case Restored(celsius, duty) => RecordIfTracked(s, Bucket(celsius), duty)
  }

  function LearnAll(s: FloorState, log: seq<FloorEvent>): FloorState {
    if log == [] then s else Learn(LearnAll(s, log[..|log| - 1]), log[|log| - 1])
  }

  /** Whether an event says something about bucket `i`: a rising span that reaches it, or
      has one tracked end and that end falls in it, or a restored entry in it. */
  ghost predicate Covers(e: FloorEvent, i: nat) {
    match e
    case Observed(from, to, _, rising) =>
      rising &&
      (var (a, b) := (Bucket(from), Bucket(to));
       if a.Some? && b.Some? then Min(a.value, b.value) <= i <= Max(a.value, b.value)
       else a == Some(i) || b == Some(i))
    case Restored(celsius, _) => Bucket(celsius) == Some(i)
  }

  /** `value` is the loudest duty any event in the log gives bucket `i`, or nothing when no
      event covers it. */
  ghost predicate IsLoudest(value: Option<Duty>, log: seq<FloorEvent>, i: nat) {
    && (value.Some? ==> exists e :: e in log && Covers(e, i) && e.duty == value.value)
    && (forall e :: e in log && Covers(e, i) ==> value.Some? && e.duty <= value.value)
  }

  lemma {:induction false} RecordRangeAt(s: FloorState, a: nat, b: nat, duty: Duty, i: nat)
    requires a <= b <= BUCKETS && i < BUCKETS
    ensures RecordRange(s, a, b, duty).table[i] == if a <= i < b then AfterRecord(s, i, duty).table[i] else s.table[i]
    decreases b
  {
    if a == b {
    } else {
      RecordRangeAt(s, a, b - 1, duty, i);
    }
  }

  /** One event raises exactly the buckets it covers, and only ever raises them. */
  lemma LearnAt(s: FloorState, e: FloorEvent, i: nat)
    requires i < BUCKETS
    ensures Learn(s, e).table[i] == if Covers(e, i) then AfterRecord(s, i, e.duty).table[i] else s.table[i]
  {
    match e
    case Observed(from, to, duty, rising) =>
      var (lo, hi) := Ordered(from, to);
      OrderedBuckets(from, to);
      if rising && Bucket(lo).Some? && Bucket(hi).Some? {
        RecordRangeAt(s, Bucket(lo).value, Bucket(hi).value + 1, duty, i);
      }
    case Restored(_, _) =>
  }

  /** The learned table refines its history: whatever the order of observations and
      restores, a bucket holds the loudest duty of the events covering it. */
  lemma {:induction false} TableIsLoudest(log: seq<FloorEvent>, i: nat)
    requires i < BUCKETS
    ensures IsLoudest(LearnAll(FRESH, log).table[i], log, i)
  {
    if log == [] {
    } else {
      var n := |log| - 1;
      var (before, e) := (log[..n], log[n]);
      TableIsLoudest(before, i);
      LearnAt(LearnAll(FRESH, before), e, i);
      assert log == before + [e];
      var (old', new') := (LearnAll(FRESH, before).table[i], LearnAll(FRESH, log).table[i]);
      if new'.Some? && new' == old' {
        var w :| w in before && Covers(w, i) && w.duty == old'.value;
        assert w in log;
      } else if new'.Some? {
        assert e in log;
      }
    }
  }

  /** The order in which the floor was told things does not matter. */
  lemma OrderDoesNotMatter(log: seq<FloorEvent>, log': seq<FloorEvent>)
    requires multiset(log) == multiset(log')
    ensures LearnAll(FRESH, log).table == LearnAll(FRESH, log').table
  {
    forall i | 0 <= i < BUCKETS
      ensures LearnAll(FRESH, log).table[i] == LearnAll(FRESH, log').table[i]
    {
      TableIsLoudest(log, i);
      TableIsLoudest(log', i);
      forall e ensures e in log <==> e in log' {
        assert e in log <==> e in multiset(log);
        assert e in log' <==> e in multiset(log');
      }
    }
  }

  /** The floor at a temperature never falls below any duty recorded for its bucket, on
      the wire as well as in counts. */
  lemma FloorCoversHistory(p: BoardProfile, log: seq<FloorEvent>, e: FloorEvent, celsius: real, duty: Duty)
    requires |p.dutyRpm| > 0 && |p.firmwareCurve| > 0
    requires e in log && Bucket(Finite(celsius)).Some? && Covers(e, Bucket(Finite(celsius)).value)
    requires duty >= FloorDuty(p, LearnAll(FRESH, log).table, Finite(celsius))
    ensures duty >= e.duty
    ensures ScaledBack(DutyToPercent(duty)) >= e.duty as real
  {
    var i := Bucket(Finite(celsius)).value;
    TableIsLoudest(log, i);
    var learned := LearnAll(FRESH, log).table[i].value;
    if learned == 0 {
      assert ScaledBack(DutyToPercent(duty)) >= 0.0;
    } else {
      MarginSurvivesTheWire(learned, duty);
    }
  }

  /** A bucket is two degrees wide, and the forty of them run from 30 to 110. */
  lemma BucketsAreTwoDegrees(celsius: real, i: nat)
    ensures Bucket(Finite(celsius)) == Some(i) <==> i < 40 && 30.0 + 2.0 * i as real <= celsius < 32.0 + 2.0 * i as real
    ensures Bucket(Finite(celsius)).None? <==> celsius < 30.0 || celsius >= 110.0
  {}

  /** The floor asks for no more than it must. Where firmware was seen silent it is silent;
      where firmware was seen at a duty it is two counts above the loudest told, but for the
      least duty that turns a fan; with no reading it is everything. */
  lemma FloorIsTight(p: BoardProfile, log: seq<FloorEvent>, loudest: FloorEvent, celsius: real)
    requires |p.dutyRpm| > 0 && |p.firmwareCurve| > 0
    requires Bucket(Finite(celsius)).Some? && loudest in log && Covers(loudest, Bucket(Finite(celsius)).value)
    requires forall e :: e in log && Covers(e, Bucket(Finite(celsius)).value) ==> e.duty <= loudest.duty
    ensures FloorDuty(p, LearnAll(FRESH, log).table, NonFinite) == 255
    ensures FloorDuty(p, LearnAll(FRESH, log).table, Finite(celsius)) ==
      if loudest.duty == 0 then 0 else if loudest.duty < 31 then 33 else Min(loudest.duty + 2, 255)
  {
    TableIsLoudest(log, Bucket(Finite(celsius)).value);
  }

  /** Where nothing was told the floor is the model's: silent exactly where the modelled speed
      is nothing, and no more than two counts above a duty that reaches it. */
  lemma UntoldFloorIsTheModels(p: BoardProfile, log: seq<FloorEvent>, celsius: real, reaches: Duty)
    requires WellFormed(p)
    requires forall e :: e in log && Bucket(Finite(celsius)).Some? ==> !Covers(e, Bucket(Finite(celsius)).value)
    ensures
      var duty := FloorDuty(p, LearnAll(FRESH, log).table, Finite(celsius));
      var rpm := InterpolateRpm(p, Finite(celsius));
      && (duty == 0 <==> rpm == 0)
      && (0 < rpm < Top(p) && Forward(p.dutyRpm, reaches as real) >= rpm as real ==> duty <= Max(reaches + 2, 33))
      && (rpm >= Top(p) > 0 ==> duty == 255)
  {
    if Bucket(Finite(celsius)).Some? { TableIsLoudest(log, Bucket(Finite(celsius)).value); }
    ModelledFloorIsTight(p, Finite(celsius), reaches);
  }

  // ------------------------------------------------------------ the revision

  function BucketWeight(value: Option<Duty>): nat { if value.Some? then value.value + 1 else 0 }

  /** How much a table has learned, on a scale of 256 per bucket. */
  function Weight(t: seq<Option<Duty>>): (w: nat)
    ensures w <= 256 * |t|
  {
    if t == [] then 0
    else Weight(t[..|t| - 1]) + BucketWeight(t[|t| - 1])
  }

  lemma {:induction false} WeightUpdate(t: seq<Option<Duty>>, i: nat, duty: Duty)
    requires i < |t|
    ensures Weight(t[i := Some(duty)])
         == Weight(t) + BucketWeight(Some(duty)) - BucketWeight(t[i])
  {
    var n := |t| - 1;
    var t' := t[i := Some(duty)];
    if i == n {
      assert t'[..n] == t[..n];
    } else {
      assert t'[..n] == t[..n][i := Some(duty)];
      WeightUpdate(t[..n], i, duty);
    }
  }

  /** Every change is paid for by weight, and no change leaves the table as it was. */
  ghost predicate Paid(s: FloorState, s': FloorState) {
    && s.revision <= s'.revision
    && s'.revision - s.revision <= Weight(s'.table) - Weight(s.table)
    && (s'.revision == s.revision ==> s'.table == s.table)
  }

  lemma RecordPaid(s: FloorState, i: nat, duty: Duty)
    requires i < BUCKETS
    ensures Paid(s, AfterRecord(s, i, duty))
  {
    WeightUpdate(s.table, i, duty);
  }

  lemma {:induction false} RangePaid(s: FloorState, a: nat, b: nat, duty: Duty)
    requires a <= b <= BUCKETS
    ensures Paid(s, RecordRange(s, a, b, duty))
    decreases b
  {
    if a == b {
    } else {
      RangePaid(s, a, b - 1, duty);
      RecordPaid(RecordRange(s, a, b - 1, duty), b - 1, duty);
    }
  }

  lemma LearnPaid(s: FloorState, e: FloorEvent)
    ensures Paid(s, Learn(s, e))
  {
    match e
    case Restored(celsius, duty) =>
      if Bucket(celsius).Some? { RecordPaid(s, Bucket(celsius).value, duty); }
    case Observed(from, to, duty, rising) =>
      var (lo, hi) := Ordered(from, to);
      var (a, b) := (Bucket(lo), Bucket(hi));
      OrderedBuckets(from, to);
      if a.Some? && b.Some? {
        RangePaid(s, a.value, b.value + 1, duty);
      } else if a.Some? {
        RecordPaid(s, a.value, duty);
      } else if b.Some? {
        RecordPaid(s, b.value, duty);
      }
  }

  lemma {:induction false} LearnAllPaid(s: FloorState, log: seq<FloorEvent>)
    ensures Paid(s, LearnAll(s, log))
  {
    if log == [] {
    } else {
      LearnAllPaid(s, log[..|log| - 1]);
      LearnPaid(LearnAll(s, log[..|log| - 1]), log[|log| - 1]);
    }
  }

  /** The revision moves exactly when the table does, over any run of events. */
  lemma RevisionTracksTable(s: FloorState, log: seq<FloorEvent>)
    ensures LearnAll(s, log).revision >= s.revision
    ensures LearnAll(s, log).revision == s.revision <==> LearnAll(s, log).table == s.table
  {
    LearnAllPaid(s, log);
  }

  /** Learning stops: a fresh floor changes at most 40 * 256 times, whatever it is told. */
  lemma RevisionBounded(log: seq<FloorEvent>)
    ensures LearnAll(FRESH, log).revision <= 10240
  {
    LearnAllPaid(FRESH, log);
    NothingWeighsNothing(BUCKETS);
  }

  lemma {:induction false} NothingWeighsNothing(n: nat)
    ensures Weight(Nothing(n)) == 0
  {
    if n == 0 {
    } else {
      assert Nothing(n)[..n - 1] == Nothing(n - 1);
      NothingWeighsNothing(n - 1);
    }
  }

  // ------------------------------------------------------- saving the table

  /** What the loop remembers of saving: the revision last written, and how often it wrote. */
  datatype Saver = Saver(revision: nat, saves: nat)

  const UNSAVED := Saver(0, 0)

  /** When a save is due, one is made if the table has changed since the last and is not
      empty. */
  function AfterSaveDue(saver: Saver, s: FloorState): Saver {
    if s.revision != saver.revision && Observations(s.table) != [] then Saver(s.revision, saver.saves + 1)
    else saver
  }

  /** Something learned, or the time for a save come round. */
  datatype Turn = Learned(event: FloorEvent) | SaveDue

  function AfterTurns(turns: seq<Turn>): (FloorState, Saver) {
    if turns == [] then (FRESH, UNSAVED)
    else
      var (s, saver) := AfterTurns(turns[..|turns| - 1]);
      match turns[|turns| - 1]
      case Learned(e) => (Learn(s, e), saver)
      case SaveDue => (s, AfterSaveDue(saver, s))
  }

  lemma {:induction false} SavesArePaid(turns: seq<Turn>)
    ensures
      var (s, saver) := AfterTurns(turns);
      saver.saves <= saver.revision <= s.revision <= Weight(s.table)
  {
    hide Learn, Weight, Observations;
    if turns == [] {
      NothingWeighsNothing(BUCKETS);
    } else {
      var n := |turns| - 1;
      SavesArePaid(turns[..n]);
      if turns[n].Learned? { LearnPaid(AfterTurns(turns[..n]).0, turns[n].event); }
    }
  }

  lemma {:induction false} NothingToExport(t: Table, i: nat)
    requires i <= BUCKETS && ObservationsFrom(t, i) == []
    ensures forall k :: i <= k < BUCKETS ==> t[k].None?
    decreases BUCKETS - i
  {
    if i == BUCKETS {
    } else {
      NothingToExport(t, i + 1);
    }
  }

  lemma {:induction false} EmptyWeighsNothing(t: seq<Option<Duty>>)
    requires forall k :: 0 <= k < |t| ==> t[k].None?
    ensures Weight(t) == 0
  {
    if t == [] {
    } else {
      EmptyWeighsNothing(t[..|t| - 1]);
    }
  }

  /** And once a save has come due, nothing learned is left unsaved. */
  lemma SaveCatchesUp(turns: seq<Turn>)
    ensures
      var (s, saver) := AfterTurns(turns + [SaveDue]);
      saver.revision == s.revision
  {
    assert (turns + [SaveDue])[..|turns|] == turns;
    SavesArePaid(turns);
    var s := AfterTurns(turns).0;
    if Observations(s.table) == [] {
      NothingToExport(s.table, 0);
      EmptyWeighsNothing(s.table);
    }
  }

  /** However long a process runs and however often a save is due, it saves at most 10240
      times. */
  lemma SavesBounded(turns: seq<Turn>)
    ensures AfterTurns(turns).1.saves <= 10240
  {
    SavesArePaid(turns);
  }

  lemma LowEdgeBucket(i: nat)
    requires i < BUCKETS
    ensures Bucket(Finite(LowEdge(i))) == Some(i)
  {
    assert (LowEdge(i) - BUCKET_BASE_C) / BUCKET_C == i as real;
  }

  /** Appending to what is restored continues the restore. */
  lemma {:induction false} RestoreAppend(s: FloorState, a: seq<(Celsius, Duty)>, b: seq<(Celsius, Duty)>)
    ensures AfterRestore(s, a + b) == AfterRestore(AfterRestore(s, a), b)
    decreases |b|
  {
    if b == [] {
      assert a + b == a;
    } else {
      var n := |b| - 1;
      assert (a + b)[..|a + b| - 1] == a + b[..n];
      RestoreAppend(s, a, b[..n]);
    }
  }

  lemma {:induction false} RestoreObservationsFrom(t: Table, s: FloorState, i: nat)
    requires i <= BUCKETS
    requires forall k :: 0 <= k < i ==> s.table[k] == t[k]
    requires forall k :: i <= k < BUCKETS ==> s.table[k].None?
    ensures AfterRestore(s, ObservationsFrom(t, i)).table == t
    decreases BUCKETS - i
  {
    if i == BUCKETS {
    } else {
      LowEdgeBucket(i);
      var head := if t[i].Some? then [(Finite(LowEdge(i)), t[i].value)] else [];
      RestoreAppend(s, head, ObservationsFrom(t, i + 1));
      if head != [] { assert head[..0] == []; }
      RestoreObservationsFrom(t, AfterRestore(s, head), i + 1);
    }
  }

  /** Exporting a table and restoring it into a fresh floor gives the same table back. */
  lemma RestoreObservations(t: Table)
    ensures AfterRestore(FRESH, Observations(t)).table == t
  {
    RestoreObservationsFrom(t, FRESH, 0);
  }
}
