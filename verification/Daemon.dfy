/** The daemon's loop and its callers together (crates/fw-helperd/src/main.rs): governance
    ticks between requests, suspends and restarts, and what firmware was seen to do turned
    into what the fan is held to. */
module Daemon {
  import opened Prelude
  import opened Board
  import opened FanScale
  import opened FloorModel
  import opened Floor
  import opened ThermalInputs
  import opened Lease
  import opened LeaseRuns
  import opened Govern
  import Direction
  import SysfsRuns

  /** A tick of the poll loop, or something asked of the lease or done to the fan's registers
      in between. */
  datatype Moment = Sampled(sample: Sample) | Asked(event: Event)

  const UNGOVERNED := GovernState(None, None, Direction.COLD_START)

  /** A new process remembers no earlier tick. */
  function AfterMoment(w: World, s: LeaseState, g: GovernState, m: Moment): (r: (LeaseState, GovernState))
    requires Valid(s)
    ensures Valid(r.0) && r.0.profile == s.profile && SameInterface(s.fan, r.0.fan)
  {
    hide AfterEnforce, Step;
    match m
    case Sampled(sample) => AfterGovern(w, s, g, sample)
    case Asked(e) => (Step(w, s, e), if e.Restart? then UNGOVERNED else g)
  }

  function RunMoments(w: World, s: LeaseState, moments: seq<Moment>): (r: (LeaseState, GovernState))
    requires Valid(s)
    ensures Valid(r.0) && r.0.profile == s.profile && SameInterface(s.fan, r.0.fan)
  {
    hide AfterMoment;
    if moments == [] then (s, UNGOVERNED)
    else
      var (s', g') := RunMoments(w, s, moments[..|moments| - 1]);
      AfterMoment(w, s', g', moments[|moments| - 1])
  }

  /** What a moment does to the lease: a held fan is corrected, a free one is read and learned
      from. */
  function AsEvents(w: World, s: LeaseState, g: GovernState, m: Moment): seq<Event>
    requires Valid(s)
  {
    match m
    case Asked(e) => [e]
    case Sampled(sample) =>
      if s.held then [Tick(sample.thermal)]
      else [Look(sample.target, sample.actual)] + AsObserve(Recorded(w, s, g, sample))
  }

  function AsObserve(e: Option<FloorEvent>): seq<Event> {
    match e
    case Some(Observed(from, to, duty, rising)) => [Observe(from, to, duty, rising)]
    case _ => []
  }

  function EventsOf(w: World, s: LeaseState, moments: seq<Moment>): seq<Event>
    requires Valid(s)
  {
    if moments == [] then []
    else
      var before := moments[..|moments| - 1];
      var (s', g') := RunMoments(w, s, before);
      EventsOf(w, s, before) + AsEvents(w, s', g', moments[|moments| - 1])
  }

  lemma {:induction false} RunAppend(w: World, s: LeaseState, a: seq<Event>, b: seq<Event>)
    requires Valid(s)
    ensures Run(w, s, a + b) == Run(w, Run(w, s, a), b)
    decreases |b|
  {
    hide Step;
    if b == [] {
      assert a + b == a;
    } else {
      assert (a + b)[..|a + b| - 1] == a + b[..|b| - 1];
      RunAppend(w, s, a, b[..|b| - 1]);
    }
  }

  lemma RunOne(w: World, s: LeaseState, e: Event)
    requires Valid(s)
    ensures Run(w, s, [e]) == Step(w, s, e)
  {
    hide Step;
    assert [e][..0] == [];
  }

  lemma RunTwo(w: World, s: LeaseState, e: Event, e': Event)
    requires Valid(s)
    ensures Run(w, s, [e] + [e']) == Step(w, Step(w, s, e), e')
  {
    hide Step;
    RunAppend(w, s, [e], [e']);
    RunOne(w, s, e);
    RunOne(w, Step(w, s, e), e');
  }

  lemma MomentIsItsEvents(w: World, s: LeaseState, g: GovernState, m: Moment)
    requires Valid(s)
    ensures AfterMoment(w, s, g, m).0 == Run(w, s, AsEvents(w, s, g, m))
  {
    match m
    case Asked(e) =>
      RunOne(w, s, e);
    case Sampled(sample) =>
      hide AfterEnforce, AfterFirmwareDuty, AfterSpan, Direction.AfterReading, Run;
      var e := Recorded(w, s, g, sample);
      var look := Look(sample.target, sample.actual);
      if s.held {
        RunOne(w, s, Tick(sample.thermal));
      } else if e.None? {
        assert [look] + [] == [look];
        RunOne(w, s, look);
      } else {
        RunTwo(w, s, look, Observe(e.value.from, e.value.to, e.value.duty, e.value.rising));
      }
  }

  /** On every board the daemon's runs are lease runs, so all that is proved of those holds of
      it. */
  lemma {:induction false} DaemonRunIsALeaseRun(w: World, s: LeaseState, moments: seq<Moment>)
    requires Valid(s)
    ensures RunMoments(w, s, moments).0 == Run(w, s, EventsOf(w, s, moments))
  {
    hide AfterMoment, Step, AsEvents, Run;
    if moments == [] {
      assert Run(w, s, []) == s by { RunNothing(w, s); }
    } else {
      var n := |moments| - 1;
      DaemonRunIsALeaseRun(w, s, moments[..n]);
      var (s', g') := RunMoments(w, s, moments[..n]);
      MomentIsItsEvents(w, s', g', moments[n]);
      RunAppend(w, s, EventsOf(w, s, moments[..n]), AsEvents(w, s', g', moments[n]));
    }
  }

  lemma RunNothing(w: World, s: LeaseState)
    requires Valid(s)
    ensures Run(w, s, []) == s
  {}

  /** After every tick of the daemon, whatever came before it, firmware owns the fan or the
      percent the EC holds honours all the running process was told. */
  lemma EveryTickHonoursHistory(w: World, p: BoardProfile, left: Option<Percent>, moments: seq<Moment>, sample: Sample)
    requires WellFormed(p) && Benign(w)
    ensures
      var s0 := Boot(w, p, left);
      var events := EventsOf(w, s0, moments);
      var fan := RunMoments(w, s0, moments + [Sampled(sample)]).0.fan;
      fan.OnEc? && (fan.ec.fan.Some? ==>
        sample.thermal.Readable().Some?
        && HonoursHistory(p, Told(events), sample.thermal.Readable().value, fan.ec.fan.value))
  {
    hide AfterEnforce, HonoursHistory, Run, Boot, Told, EventsOf, AfterFirmwareDuty;
    var s0 := Boot(w, p, left);
    var events := EventsOf(w, s0, moments);
    var all := moments + [Sampled(sample)];
    assert all[..|moments|] == moments;
    var (s, g) := RunMoments(w, s0, moments);
    DaemonRunIsALeaseRun(w, s0, moments);
    NeverQuieterThanFirmware(w, p, left, events, sample.thermal);
    if !s.held {
      BootControls(w, p, left);
      RunKeepsControl(w, s0, events);
      FreeFanStaysFree(w, s, g, sample);
    }
  }

  lemma BootControls(w: World, p: BoardProfile, left: Option<Percent>)
    requires WellFormed(p) && Benign(w)
    ensures Controlled(Boot(w, p, left))
  {}

  lemma FreeFanStaysFree(w: World, s: LeaseState, g: GovernState, sample: Sample)
    requires Valid(s) && s.fan.OnEc? && !s.held && s.fan.ec.fan.None?
    ensures AfterGovern(w, s, g, sample).0.fan == s.fan
  {
    hide AfterSpan, Direction.AfterReading;
  }

  // ------------------------------------------------ from a witness to the fan

  /** A tick that teaches `duty`: firmware drives at a readable temperature, that is the duty
      it is taken to have chosen, and the reading is on the branch that counts. */
  ghost predicate Teaches(w: World, s: LeaseState, g: GovernState, sample: Sample, duty: Duty)
    requires Valid(s)
  {
    && !s.held && sample.thermal.Readable().Some?
    && AfterFirmwareDuty(w, s, sample.target, sample.actual).1 == Some(duty)
    && (Direction.AfterReading(g.direction, sample.thermal.celsius).rising || !Hysteretic(s))
  }

  /** Where no duty can be read: firmware drives, and its target is not a dead register. */
  ghost predicate TeachesTarget(s: LeaseState, g: GovernState, sample: Sample) {
    && !s.held && sample.thermal.Readable().Some?
    && sample.target.Some? && sample.actual.Some?
    && !(sample.target.value == 0 && sample.actual.value > FAN_SPINNING_RPM)
    && (Direction.AfterReading(g.direction, sample.thermal.celsius).rising || !Hysteretic(s))
  }

  lemma {:induction false} EventsPrefix(w: World, s: LeaseState, moments: seq<Moment>, k: nat)
    requires Valid(s) && k <= |moments|
    ensures EventsOf(w, s, moments[..k]) <= EventsOf(w, s, moments)
    decreases |moments|
  {
    hide AsEvents, RunMoments;
    if k == |moments| {
      assert moments[..k] == moments;
    } else {
      var n := |moments| - 1;
      EventsPrefix(w, s, moments[..n], k);
      assert moments[..n][..k] == moments[..k];
    }
  }

  /** What a process was told it does not forget until a new one starts. */
  lemma {:induction false} ToldIsKept(events: seq<Event>, k: nat, e: FloorEvent)
    requires k <= |events| && e in Told(events[..k])
    requires forall j :: k <= j < |events| ==> !events[j].Restart?
    ensures e in Told(events)
  {
    if k == |events| {
      assert events[..k] == events;
    } else {
      var n := |events| - 1;
      assert events[..n][..k] == events[..k];
      ToldIsKept(events[..n], k, e);
    }
  }

  ghost predicate Restarts(m: Moment) { m.Asked? && m.event.Restart? }

  /** Only a restart that was asked for restarts. */
  lemma MomentRestartsIfAsked(w: World, s: LeaseState, g: GovernState, m: Moment)
    requires Valid(s) && !Restarts(m)
    ensures forall j :: 0 <= j < |AsEvents(w, s, g, m)| ==> !AsEvents(w, s, g, m)[j].Restart?
  {
    hide Recorded;
  }

  lemma {:induction false} NoRestartUnasked(w: World, s: LeaseState, moments: seq<Moment>, k: nat)
    requires Valid(s) && k <= |moments| && forall j :: k <= j < |moments| ==> !Restarts(moments[j])
    ensures
      var (before, all) := (EventsOf(w, s, moments[..k]), EventsOf(w, s, moments));
      before <= all && forall j :: |before| <= j < |all| ==> !all[j].Restart?
    decreases |moments|
  {
    hide RunMoments, AsEvents, Restarts;
    EventsPrefix(w, s, moments, k);
    if k == |moments| {
      assert moments[..k] == moments;
    } else {
      var n := |moments| - 1;
      NoRestartUnasked(w, s, moments[..n], k);
      assert moments[..n][..k] == moments[..k];
      var (s', g') := RunMoments(w, s, moments[..n]);
      MomentRestartsIfAsked(w, s', g', moments[n]);
    }
  }

  /** A tick that teaches tells the floor about its own temperature. */
  lemma TeachingIsRecorded(w: World, s: LeaseState, g: GovernState, sample: Sample, duty: Duty, bucket: nat)
    requires Valid(s) && Teaches(w, s, g, sample, duty)
    requires Bucket(Finite(sample.thermal.Readable().value)) == Some(bucket)
    ensures
      var e := Recorded(w, s, g, sample);
      e.Some? && e.value.Observed? && e.value.duty == duty && Covers(e.value, bucket)
  {
    hide AfterFirmwareDuty, Direction.AfterReading;
  }

  /** What a teaching tick told is still known however many moments later, if no new process
      has started. */
  lemma WitnessIsTold(w: World, s0: LeaseState, before: seq<Moment>, witness': Sample, duty: Duty,
                      after: seq<Moment>, bucket: nat) returns (told: FloorEvent)
    requires Valid(s0)
    requires
      var (s, g) := RunMoments(w, s0, before);
      Teaches(w, s, g, witness', duty)
    requires Bucket(Finite(witness'.thermal.Readable().value)) == Some(bucket)
    requires forall j :: 0 <= j < |after| ==> !Restarts(after[j])
    ensures told in Told(EventsOf(w, s0, before + [Sampled(witness')] + after))
    ensures told.duty == duty && Covers(told, bucket)
  {
    hide RunMoments, Recorded, Bucket, Covers, Restarts;
    var (s, g) := RunMoments(w, s0, before);
    TeachingIsRecorded(w, s, g, witness', duty, bucket);
    told := Recorded(w, s, g, witness').value;
    var taught := before + [Sampled(witness')];
    var all := taught + after;
    assert taught[..|before|] == before;
    assert all[..|taught|] == taught;
    var events := EventsOf(w, s0, all);
    var early := EventsOf(w, s0, taught);
    assert told in Told(early) by { RecordIsTold(EventsOf(w, s0, before), witness', told); }
    NoRestartUnasked(w, s0, all, |taught|);
    assert events[..|early|] == early;
    ToldIsKept(events, |early|, told);
  }

  lemma RecordIsTold(events: seq<Event>, sample: Sample, told: FloorEvent)
    requires told.Observed?
    ensures told in Told(events + ([Look(sample.target, sample.actual)] + AsObserve(Some(told))))
  {
    var look := events + [Look(sample.target, sample.actual)];
    var observe := Observe(told.from, told.to, told.duty, told.rising);
    var all := events + ([Look(sample.target, sample.actual)] + AsObserve(Some(told)));
    assert all == look + [observe];
    assert all[..|all| - 1] == look;
  }

  /** The promise in the terms it is made in, on the EC. Whenever firmware was seen to want a
      speed at a temperature the floor tracks, then for as long as that process runs, and
      whatever is asked of it, every tick in the same bucket leaves the fan with firmware or
      turning at least that fast, up to its own top speed. */
  lemma WitnessedSpeedIsHonoured(w: World, p: BoardProfile, left: Option<Percent>,
                                 before: seq<Moment>, witness': Sample, after: seq<Moment>, sample: Sample)
    requires WellFormed(p) && Benign(w)
    requires
      var (s, g) := RunMoments(w, Boot(w, p, left), before);
      TeachesTarget(s, g, witness')
    requires forall j :: 0 <= j < |after| ==> !Restarts(after[j])
    requires sample.thermal.Readable().Some?
    requires Bucket(Finite(witness'.thermal.Readable().value)).Some?
    requires Bucket(Finite(witness'.thermal.Readable().value)) == Bucket(Finite(sample.thermal.Readable().value))
    ensures
      var fan := RunMoments(w, Boot(w, p, left), before + [Sampled(witness')] + after + [Sampled(sample)]).0.fan;
      fan.OnEc? && (fan.ec.fan.Some? ==>
        Forward(p.dutyRpm, ScaledBack(fan.ec.fan.value)) >= Min(witness'.target.value, Top(p)) as real)
  {
    hide Boot, RunMoments, Told, Bucket, Covers, Forward, DutyForRpm, EventsOf, Restarts, Direction.AfterReading;
    var s0 := Boot(w, p, left);
    var bucket := Bucket(Finite(sample.thermal.Readable().value)).value;
    var rpm: Rpm := Min(witness'.target.value, 65535);
    var told := WitnessIsTold(w, s0, before, witness', DutyForRpm(p.dutyRpm, rpm), after, bucket);
    EveryTickHonoursHistory(w, p, left, before + [Sampled(witness')] + after, sample);
    assert told.duty == DutyForRpm(p.dutyRpm, rpm);
  }

  /** The same on sysfs, as far as it goes there. Whenever firmware was seen at a duty, every
      later good tick in the same bucket leaves the register near it, and at or above it in
      every world exactly when the tick's target is three counts above it. */
  lemma WitnessedDutyIsKeptExactly(w: World, s0: LeaseState, before: seq<Moment>, witness': Sample, duty: Duty,
                                   after: seq<Moment>, thermal: Thermal)
    requires Valid(s0) && s0.profile.Some? && s0.fan.OnSysfs? && s0.floor == FRESH && duty > 0
    requires
      var (s, g) := RunMoments(w, s0, before);
      Teaches(w, s, g, witness', duty)
    requires forall j :: 0 <= j < |after| ==> !Restarts(after[j])
    requires RunMoments(w, s0, before + [Sampled(witness')] + after).0.held && SysfsRuns.Keeps(thermal)
    requires Bucket(Finite(witness'.thermal.Readable().value)).Some?
    requires Bucket(Finite(witness'.thermal.Readable().value)) == Bucket(Finite(thermal.Readable().value))
    ensures
      var s := RunMoments(w, s0, before + [Sampled(witness')] + after).0;
      && (SysfsRuns.Good(w, s, thermal) ==>
            SysfsRuns.NearLearned(SysfsRuns.Register(w, s, thermal), AfterEnforce(w, s, thermal).0.applied, duty))
      && ((forall w': World :: SysfsRuns.Good(w', s, thermal) ==> SysfsRuns.Register(w', s, thermal) >= duty) <==>
            SysfsRuns.Target(s, thermal) >= duty + 3)
  {
    assert witness'.thermal.Readable().Some?;
    hide RunMoments, Told, Bucket, Covers, EventsOf, Restarts, Teaches, Run, AfterEnforce, SysfsRuns.Target;
    var bucket := Bucket(Finite(thermal.Readable().value)).value;
    var all := before + [Sampled(witness')] + after;
    var told := WitnessIsTold(w, s0, before, witness', duty, after, bucket);
    DaemonRunIsALeaseRun(w, s0, all);
    SysfsRuns.NeverFarBelowFirmware(w, s0, EventsOf(w, s0, all), thermal, told);
    SysfsRuns.ToldDutyKeptExactly(w, s0, EventsOf(w, s0, all), thermal, told);
  }

  // ------------------------------------------------------- nothing of ours learned

  /** On sysfs, where releases work, a refused switch is refused, nothing else takes the fan by
      hand and every reclaim can read the mode, no tick of the daemon ever takes a duty of
      ours for firmware's. */
  lemma OursNeverLearned(w: World, s0: LeaseState, moments: seq<Moment>, sample: Sample)
    requires SysfsRuns.InHand(s0) && SysfsRuns.Straight(w)
    requires SysfsRuns.Undisturbed(w, s0, EventsOf(w, s0, moments))
    ensures
      var (s, g) := RunMoments(w, s0, moments);
      !LearnsOurs(w, s, g, sample)
  {
    hide RunMoments, EventsOf, SysfsRuns.Undisturbed, SysfsRuns.Straight, LearnsOurs;
    var (s, g) := RunMoments(w, s0, moments);
    DaemonRunIsALeaseRun(w, s0, moments);
    SysfsRuns.RunKeepsHand(w, s0, EventsOf(w, s0, moments));
    OursLearnedOnlyWhenFree(w, s, g, sample);
  }
}
