/** The watchdog over manual fan control (crates/fw-helperd/src/watchdog.rs): a fan held by
    a daemon that has stopped working is given back. Time is in milliseconds since start. */
module Watchdog {
  import opened Prelude
  import opened FanErrors
  import opened Lease
  import opened LeaseRuns
  import EcFan
  import SysfsFan
  import LeaseObject

  const TIMEOUT: nat := 5000
  const CHECK_INTERVAL: nat := 1000

  datatype WatchState = WatchState(lease: LeaseState, lastBeat: nat, tripped: bool)

  /** `saturating_sub`: a beat stamped later than `now` counts as fresh. */
  function SinceBeat(lastBeat: nat, now: nat): nat { Max(now - lastBeat, 0) }

  /** One check, and whether it intervened. */
  function AfterCheck(w: World, s: WatchState, now: nat): (WatchState, bool) {
    hide AfterMode, AfterReleaseNow;
    if SinceBeat(s.lastBeat, now) <= TIMEOUT then (s, false)
    else
      var (fan, mode) := AfterMode(w, s.lease.fan);
      var lease := s.lease.(fan := fan);
      if mode != Ok(Manual) then
        // Without a mode register "not held" is a belief, so release anyway and say nothing.
        if lease.fan.OnEc? then (s.(lease := AfterReleaseNow(w, lease).0), false)
        else (s.(lease := lease), false)
      else (s.(lease := AfterReleaseNow(w, lease).0, tripped := true), true)
  }

  class Watchdog {
    const lease: LeaseObject.FanLease
    var lastBeatMs: nat
    var tripped: bool

    ghost function State(): WatchState
      requires lease.Valid()
      reads this, lease, lease.floor, lease.floor.observed, lease.floor.seen, lease.Hardware(), lease.curve
    {
      WatchState(lease.State(), lastBeatMs, tripped)
    }

    constructor (lease: LeaseObject.FanLease)
      requires lease.Valid()
      ensures this.lease == lease && lease.Valid() && State() == WatchState(lease.State(), 0, false)
    {
      this.lease := lease;
      lastBeatMs, tripped := 0, false;
    }

    method Beat(now: nat)
      requires lease.Valid()
      modifies `lastBeatMs
      ensures lease.Valid() && State() == old(State()).(lastBeat := now)
    {
      lastBeatMs := now;
    }

    method Check(now: nat) returns (intervened: bool)
      requires lease.Valid()
      modifies `tripped, lease`held, lease.Hardware()
      ensures lease.Valid() && lease.curve == old(lease.curve)
      ensures (State(), intervened) == AfterCheck(lease.Environment(), old(State()), now)
    {
      hide AfterMode, AfterReleaseNow, LeaseObject.FanLease.Environment;
      if SinceBeat(lastBeatMs, now) <= TIMEOUT {
        return false;
      }
      var mode := lease.Mode();
      if mode != Ok(Manual) {
        if lease.sysfs == null && lease.ec != null {
          var _ := lease.ReleaseNow();
        }
        return false;
      }
      tripped := true;
      // Not a one-shot: a fan still held is found manual again by the next check.
      var _ := lease.ReleaseNow();
      return true;
    }
  }

  // -------------------------------------------------------------- one check

  /** The fan is under manual control, as the hardware has it. A node may also be in a mode that
      is neither manual nor automatic; the watchdog does not count that as held and leaves it
      be, where the reclaim at startup takes it back. */
  predicate HeldInHardware(fan: Fan) {
    match fan
    case NoFan => false
    case OnEc(ec) => ec.fan.Some?
    case OnSysfs(hw) => hw.enable == PWM_MANUAL
  }

  /** Releases take, whatever is said of them and whether or not it can be read back. */
  ghost predicate ReleasesLand(w: World) {
    EcFan.ReleasesAccepted(w.ec) && forall n :: w.hw.autoWrite(n).effect == SysfsFan.Applied
  }

  /** The mode register is there to be asked and the next read of it fails. */
  predicate Unreadable(w: World, fan: Fan) { fan.OnSysfs? && !w.hw.readOk(fan.hw.clock) }

  /** A check on a stale heartbeat leaves a held fan held exactly when it cannot read the mode:
      then it cannot tell that the fan is held, and does nothing. On the EC there is no such
      case. */
  lemma StaleCheckFreesExactly(w: World, s: WatchState, now: nat)
    requires ReleasesLand(w) && now > s.lastBeat + TIMEOUT
    ensures
      var (s', intervened) := AfterCheck(w, s, now);
      && (HeldInHardware(s'.lease.fan) <==> HeldInHardware(s.lease.fan) && Unreadable(w, s.lease.fan))
      && (Unreadable(w, s.lease.fan) ==> !intervened && s'.lease.held == s.lease.held)
      && (s'.tripped <==> s.tripped || intervened)
      && (s.lease.fan.OnEc? ==> (intervened <==> s.lease.fan.ec.manual))
      && (s.lease.fan.OnSysfs? ==>
            && s'.lease.fan.OnSysfs?
            && s'.lease.fan.hw.enable == (if intervened then PWM_AUTO else s.lease.fan.hw.enable)
            && (intervened <==> s.lease.fan.hw.enable == PWM_MANUAL && !Unreadable(w, s.lease.fan)))
  {}

  /** A node whose writes all work and whose reads all fail. */
  const BLIND_NODE: World := World(
    SysfsFan.HwScript(
      n => SysfsFan.WriteReply(true, SysfsFan.Applied), n => SysfsFan.WriteReply(true, SysfsFan.Applied),
      n => SysfsFan.WriteReply(true, SysfsFan.Applied), n => false),
    EcFan.EcScript(n => EcFan.Reply(true, true), n => EcFan.Reply(true, true)))

  /** That case is real: with the heart stopped for a minute, a fan held at a standstill is
      left there and nothing is reported. */
  lemma BlindCheckLeavesFanHeld(clock: nat)
    ensures
      var fan := OnSysfs(SysfsFan.HwState(PWM_MANUAL, 0, clock));
      var (s', intervened) := AfterCheck(BLIND_NODE, WatchState(NewLease(None, fan), 0, false), 60_000);
      ReleasesLand(BLIND_NODE) && HeldInHardware(s'.lease.fan) && !intervened
  {}

  // ---------------------------------------------------------------- whole runs

  datatype Act = Beat | Check | Work(event: Event)

  /** Something that happened, and when. */
  datatype Stamped = Stamped(time: nat, act: Act)

  function Do(w: World, s: WatchState, a: Stamped): (s': WatchState)
    requires Lease.Valid(s.lease)
    ensures Lease.Valid(s'.lease) && SameInterface(s.lease.fan, s'.lease.fan)
  {
    hide AfterMode, AfterReleaseNow, Step;
    match a.act
    case Beat => s.(lastBeat := a.time)
    case Check => AfterCheck(w, s, a.time).0
    case Work(e) => s.(lease := Step(w, s.lease, e))
  }

  function RunTrace(w: World, s: WatchState, trace: seq<Stamped>): (s': WatchState)
    requires Lease.Valid(s.lease)
    ensures Lease.Valid(s'.lease) && SameInterface(s.lease.fan, s'.lease.fan)
  {
    if trace == [] then s
    else Do(w, RunTrace(w, s, trace[..|trace| - 1]), trace[|trace| - 1])
  }

  /** Every check on the run finds a heartbeat no older than the timeout. */
  ghost predicate ChecksFindItFresh(w: World, s: WatchState, trace: seq<Stamped>)
    requires Lease.Valid(s.lease)
  {
    trace == [] ||
    (var (before, last) := (trace[..|trace| - 1], trace[|trace| - 1]);
     && ChecksFindItFresh(w, s, before)
     && (last.act.Check? ==> last.time <= RunTrace(w, s, before).lastBeat + TIMEOUT))
  }

  /** The lease operations of a run, without the watchdog. */
  function LeaseEvents(trace: seq<Stamped>): seq<Event> {
    if trace == [] then []
    else
      var (before, last) := (trace[..|trace| - 1], trace[|trace| - 1]);
      if last.act.Work? then LeaseEvents(before) + [last.act.event] else LeaseEvents(before)
  }

  /** While the heart beats often enough the watchdog might as well not be there: the lease
      does exactly what it would have done, and nothing is ever recorded as a trip. */
  lemma {:induction false} FreshHeartbeatIsInvisible(w: World, s: WatchState, trace: seq<Stamped>)
    requires Lease.Valid(s.lease) && ChecksFindItFresh(w, s, trace)
    ensures RunTrace(w, s, trace).lease == Run(w, s.lease, LeaseEvents(trace))
    ensures RunTrace(w, s, trace).tripped == s.tripped
  {
    hide Step, AfterMode, AfterReleaseNow;
    if trace == [] {
    } else {
      var n := |trace| - 1;
      FreshHeartbeatIsInvisible(w, s, trace[..n]);
      if trace[n].act.Work? {
        var events := LeaseEvents(trace);
        assert events[..|events| - 1] == LeaseEvents(trace[..n]);
      }
    }
  }

  ghost predicate InOrder(trace: seq<Stamped>) {
    forall i, j :: 0 <= i <= j < |trace| ==> trace[i].time <= trace[j].time
  }

  /** The heart beat at `i`, no more than the timeout before `now`. */
  predicate BeatAt(trace: seq<Stamped>, i: int, now: nat)
    requires 0 <= i < |trace|
  {
    trace[i].act.Beat? && now <= trace[i].time + TIMEOUT
  }

  /** Before every check, the run's start or some beat lies no more than the timeout back. */
  ghost predicate BeatsOftenEnough(start: nat, trace: seq<Stamped>) {
    forall k :: 0 <= k < |trace| && trace[k].act.Check? ==>
      trace[k].time <= start + TIMEOUT || exists i :: 0 <= i < k && BeatAt(trace, i, trace[k].time)
  }

  /** The last beat on record is no older than any beat on the run. */
  lemma {:induction false} LastBeatIsLatest(w: World, s: WatchState, trace: seq<Stamped>)
    requires Lease.Valid(s.lease) && InOrder(trace)
    requires forall k :: 0 <= k < |trace| ==> trace[k].time >= s.lastBeat
    ensures RunTrace(w, s, trace).lastBeat >= s.lastBeat
    ensures forall i :: 0 <= i < |trace| && trace[i].act.Beat? ==> RunTrace(w, s, trace).lastBeat >= trace[i].time
  {
    hide Step, AfterCheck;
    if trace == [] {
    } else {
      CheckKeepsBeat(w, RunTrace(w, s, trace[..|trace| - 1]), trace[|trace| - 1].time);
      LastBeatIsLatest(w, s, trace[..|trace| - 1]);
    }
  }

  lemma CheckKeepsBeat(w: World, s: WatchState, now: nat)
    ensures AfterCheck(w, s, now).0.lastBeat == s.lastBeat
  {
    hide AfterMode, AfterReleaseNow;
  }

  lemma {:induction false} BeatsKeepChecksFresh(w: World, s: WatchState, trace: seq<Stamped>)
    requires Lease.Valid(s.lease) && InOrder(trace) && BeatsOftenEnough(s.lastBeat, trace)
    requires forall k :: 0 <= k < |trace| ==> trace[k].time >= s.lastBeat
    ensures ChecksFindItFresh(w, s, trace)
  {
    hide RunTrace;
    if trace == [] {
    } else {
      var n := |trace| - 1;
      var before := trace[..n];
      assert BeatsOftenEnough(s.lastBeat, before) by {
        forall k | 0 <= k < n && before[k].act.Check? && !(before[k].time <= s.lastBeat + TIMEOUT)
          ensures exists i :: 0 <= i < k && BeatAt(before, i, before[k].time)
        {
          var i :| 0 <= i < k && BeatAt(trace, i, trace[k].time);
          assert BeatAt(before, i, before[k].time);
        }
      }
      BeatsKeepChecksFresh(w, s, before);
      LastBeatIsLatest(w, s, before);
      if trace[n].act.Check? && !(trace[n].time <= s.lastBeat + TIMEOUT) {
        var i :| 0 <= i < n && BeatAt(trace, i, trace[n].time);
        assert before[i].act.Beat?;
      }
    }
  }

  /** While no check comes more than five seconds after a beat the watchdog might as well
      not be there. */
  lemma BeatingHeartIsInvisible(w: World, s: WatchState, trace: seq<Stamped>)
    requires Lease.Valid(s.lease) && InOrder(trace) && BeatsOftenEnough(s.lastBeat, trace)
    requires forall k :: 0 <= k < |trace| ==> trace[k].time >= s.lastBeat
    ensures RunTrace(w, s, trace).lease == Run(w, s.lease, LeaseEvents(trace))
    ensures RunTrace(w, s, trace).tripped == s.tripped
  {
    BeatsKeepChecksFresh(w, s, trace);
    FreshHeartbeatIsInvisible(w, s, trace);
  }

  predicate CheckAt(trace: seq<Stamped>, k: int)
    requires 0 <= k < |trace|
  {
    trace[k].act.Check?
  }

  /** The watchdog thread keeps its pace: the first check comes within the interval, and
      each is followed by another within the interval unless the run ends first. */
  ghost predicate ChecksKeepPace(trace: seq<Stamped>) {
    && trace != []
    && (exists k :: 0 <= k < |trace| && CheckAt(trace, k) && trace[k].time <= CHECK_INTERVAL)
    && (forall k ::
          0 <= k < |trace| && CheckAt(trace, k) && trace[k].time + CHECK_INTERVAL <= trace[|trace| - 1].time ==>
          exists j :: k < j < |trace| && CheckAt(trace, j) && trace[j].time <= trace[k].time + CHECK_INTERVAL)
  }

  /** From a check no later than `deadline`, the pace leads to one just past it. */
  lemma {:induction false} CheckJustPast(trace: seq<Stamped>, k: nat, deadline: nat) returns (j: nat)
    requires ChecksKeepPace(trace) && k < |trace| && CheckAt(trace, k) && trace[k].time <= deadline
    requires trace[|trace| - 1].time >= deadline + CHECK_INTERVAL
    ensures k < j < |trace| && CheckAt(trace, j) && deadline < trace[j].time <= deadline + CHECK_INTERVAL
    decreases |trace| - k
  {
    j :| k < j < |trace| && CheckAt(trace, j) && trace[j].time <= trace[k].time + CHECK_INTERVAL;
    if trace[j].time > deadline {
    } else {
      j := CheckJustPast(trace, j, deadline);
    }
  }

  lemma {:induction false} LastBeatStands(w: World, s: WatchState, trace: seq<Stamped>, i: nat, n: nat)
    requires Lease.Valid(s.lease) && i < n <= |trace| && trace[i].act.Beat?
    requires forall k :: i < k < |trace| ==> !trace[k].act.Beat?
    ensures RunTrace(w, s, trace[..n]).lastBeat == trace[i].time
    decreases n
  {
    hide Step, AfterCheck;
    assert trace[..n][..n - 1] == trace[..n - 1];
    CheckKeepsBeat(w, RunTrace(w, s, trace[..n - 1]), trace[n - 1].time);
    if i == n - 1 {
    } else {
      LastBeatStands(w, s, trace, i, n - 1);
    }
  }

  /** The check at `k` cannot read the mode. */
  ghost predicate BlindAt(w: World, s: WatchState, trace: seq<Stamped>, k: int)
    requires Lease.Valid(s.lease) && 0 <= k < |trace|
  {
    Unreadable(w, RunTrace(w, s, trace[..k]).lease.fan)
  }

  /** How many checks in a row, up to the end of the run, could not read the mode. */
  ghost function BlindStreak(w: World, s: WatchState, trace: seq<Stamped>): nat
    requires Lease.Valid(s.lease)
  {
    if trace == [] then 0
    else
      var n := |trace| - 1;
      if !trace[n].act.Check? then BlindStreak(w, s, trace[..n])
      else if Unreadable(w, RunTrace(w, s, trace[..n]).lease.fan) then BlindStreak(w, s, trace[..n]) + 1
      else 0
  }

  /** No more than `f` checks in a row fail to read the mode. */
  ghost predicate BlindAtMost(w: World, s: WatchState, trace: seq<Stamped>, f: nat)
    requires Lease.Valid(s.lease)
  {
    forall n :: 0 <= n <= |trace| ==> BlindStreak(w, s, trace[..n]) <= f
  }

  /** On a board with no mode register to read, no check is ever blind. */
  lemma {:induction false} EcIsNeverBlind(w: World, s: WatchState, trace: seq<Stamped>)
    requires Lease.Valid(s.lease) && s.lease.fan.OnEc?
    ensures BlindStreak(w, s, trace) == 0 && BlindAtMost(w, s, trace, 0)
    decreases |trace|
  {
    hide RunTrace;
    if trace == [] {
      assert trace[..0] == [];
    } else {
      var n := |trace| - 1;
      EcIsNeverBlind(w, s, trace[..n]);
      forall k | 0 <= k <= |trace| ensures BlindStreak(w, s, trace[..k]) <= 0 {
        if k == |trace| {
          assert trace[..k] == trace;
        } else {
          assert trace[..n][..k] == trace[..k];
        }
      }
    }
  }

  lemma StreakStep(w: World, s: WatchState, trace: seq<Stamped>, k: nat)
    requires Lease.Valid(s.lease) && k < |trace|
    ensures BlindStreak(w, s, trace[..k + 1]) ==
      if !CheckAt(trace, k) then BlindStreak(w, s, trace[..k])
      else if BlindAt(w, s, trace, k) then BlindStreak(w, s, trace[..k]) + 1
      else 0
  {
    hide RunTrace, Unreadable;
    assert trace[..k + 1][..k] == trace[..k];
  }

  /** The next check after `k`, no later than one known to follow it, with nothing read or
      missed in between. */
  lemma {:induction false} NextCheck(w: World, s: WatchState, trace: seq<Stamped>, k: nat, from: nat, known: nat)
    returns (j: nat)
    requires Lease.Valid(s.lease) && InOrder(trace) && k < from <= known < |trace| && CheckAt(trace, known)
    requires BlindStreak(w, s, trace[..from]) == BlindStreak(w, s, trace[..k + 1])
    ensures from <= j <= known && CheckAt(trace, j) && trace[j].time <= trace[known].time
    ensures BlindStreak(w, s, trace[..j]) == BlindStreak(w, s, trace[..k + 1])
    decreases known - from
  {
    hide BlindStreak;
    if CheckAt(trace, from) {
      j := from;
    } else {
      StreakStep(w, s, trace, from);
      j := NextCheck(w, s, trace, k, from + 1, known);
    }
  }

  /** Within `f` more intervals of a check, one reads the mode. */
  lemma {:induction false} SightedCheck(w: World, s: WatchState, trace: seq<Stamped>, k: nat, f: nat, end: nat)
    returns (j: nat)
    requires Lease.Valid(s.lease) && InOrder(trace) && ChecksKeepPace(trace) && BlindAtMost(w, s, trace, f)
    requires k < |trace| && CheckAt(trace, k)
    requires trace[k].time + CHECK_INTERVAL * (f - BlindStreak(w, s, trace[..k])) <= end <= trace[|trace| - 1].time
    ensures k <= j < |trace| && CheckAt(trace, j) && !BlindAt(w, s, trace, j) && trace[k].time <= trace[j].time <= end
    decreases |trace| - k
  {
    hide BlindStreak, BlindAt, RunTrace;
    StreakStep(w, s, trace, k);
    assert BlindStreak(w, s, trace[..k + 1]) <= f && BlindStreak(w, s, trace[..k]) <= f;
    if !BlindAt(w, s, trace, k) {
      j := k;
    } else {
      var known := CheckWithinInterval(trace, k);
      var next := NextCheck(w, s, trace, k, k + 1, known);
      j := SightedCheck(w, s, trace, next, f, end);
    }
  }

  lemma CheckWithinInterval(trace: seq<Stamped>, k: nat) returns (j: nat)
    requires ChecksKeepPace(trace) && k < |trace| && CheckAt(trace, k)
    requires trace[k].time + CHECK_INTERVAL <= trace[|trace| - 1].time
    ensures k < j < |trace| && CheckAt(trace, j) && trace[j].time <= trace[k].time + CHECK_INTERVAL
  {
    j :| k < j < |trace| && CheckAt(trace, j) && trace[j].time <= trace[k].time + CHECK_INTERVAL;
  }

  /** A stale check late in the run leaves the fan held exactly when it was and the mode
      cannot be read. */
  lemma LateCheckFreesExactly(w: World, s: WatchState, trace: seq<Stamped>, i: nat, k: nat)
    requires Lease.Valid(s.lease) && ReleasesLand(w)
    requires i < k < |trace| && trace[i].act.Beat? && CheckAt(trace, k) && trace[k].time > trace[i].time + TIMEOUT
    requires forall m :: i < m < |trace| ==> !trace[m].act.Beat?
    ensures HeldInHardware(RunTrace(w, s, trace[..k + 1]).lease.fan) <==>
      HeldInHardware(RunTrace(w, s, trace[..k]).lease.fan) && BlindAt(w, s, trace, k)
  {
    hide Step, AfterCheck, HeldInHardware, ReleasesLand, Unreadable;
    LastBeatStands(w, s, trace, i, k);
    assert trace[..k + 1][..k] == trace[..k];
    StaleCheckFreesExactly(w, RunTrace(w, s, trace[..k]), trace[k].time);
  }

  lemma FirstCheck(trace: seq<Stamped>) returns (k: nat)
    requires ChecksKeepPace(trace)
    ensures k < |trace| && CheckAt(trace, k) && trace[k].time <= CHECK_INTERVAL
  {
    k :| 0 <= k < |trace| && CheckAt(trace, k) && trace[k].time <= CHECK_INTERVAL;
  }

  /** Bounded response. If the heart stops after a beat and no more than `f` checks in a row
      fail to read the mode, some check lands more than five seconds and at most six and `f`
      more after that beat and leaves the fan free. Whatever else is done to the lease, every
      check past the five seconds leaves it held only if it was and the mode cannot be read. */
  lemma StoppedHeartIsAnswered(w: World, s: WatchState, trace: seq<Stamped>, i: nat, f: nat) returns (j: nat)
    requires Lease.Valid(s.lease) && ReleasesLand(w) && BlindAtMost(w, s, trace, f)
    requires InOrder(trace) && ChecksKeepPace(trace) && i < |trace| && trace[i].act.Beat?
    requires forall k :: i < k < |trace| ==> !trace[k].act.Beat?
    requires trace[|trace| - 1].time >= trace[i].time + 6000 + 1000 * f
    ensures i < j < |trace| && CheckAt(trace, j)
    ensures trace[i].time + 5000 < trace[j].time <= trace[i].time + 6000 + 1000 * f
    ensures !HeldInHardware(RunTrace(w, s, trace[..j + 1]).lease.fan)
    ensures forall k :: i < k < |trace| && CheckAt(trace, k) && trace[k].time > trace[i].time + 5000 ==>
      (HeldInHardware(RunTrace(w, s, trace[..k + 1]).lease.fan) <==>
         HeldInHardware(RunTrace(w, s, trace[..k]).lease.fan) && BlindAt(w, s, trace, k))
  {
    hide RunTrace, HeldInHardware, ReleasesLand, ChecksKeepPace, CheckAt, BlindAt, BlindStreak;
    var first := FirstCheck(trace);
    var past := CheckJustPast(trace, first, trace[i].time + TIMEOUT);
    j := SightedCheck(w, s, trace, past, f, trace[i].time + 6000 + 1000 * f);
    assert trace[j].time > trace[i].time;
    forall k | i < k < |trace| && CheckAt(trace, k) && trace[k].time > trace[i].time + 5000
      ensures HeldInHardware(RunTrace(w, s, trace[..k + 1]).lease.fan) <==>
        HeldInHardware(RunTrace(w, s, trace[..k]).lease.fan) && BlindAt(w, s, trace, k)
    {
      LateCheckFreesExactly(w, s, trace, i, k);
    }
  }
}
