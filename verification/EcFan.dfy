/** Fan control over raw EC commands (crates/fw-helperd/src/ec.rs, `EcFan`), and the EC it
    talks to.

    The EC is the environment: what it does with each command is a script, and every
    result about a run holds for every script. A command may be acted on or not, and its
    reply may be a success or an error; a lost reply is acted on and reported as an error.
 */
module EcFan {
  import opened Prelude
  import opened FanScale
  import opened FanErrors

  /** What the EC does with one command, and what comes back. */
  datatype Reply = Reply(acted: bool, ok: bool)

  /** How the EC treats the n-th command, by the kind of command it is. */
  datatype EcScript = EcScript(duty: nat -> Reply, auto: nat -> Reply)

  /** The EC's fan (`None` while firmware owns it, else the percent commanded), whether this
      process believes it holds the fan, and how many commands have been sent. */
  datatype EcState = EcState(fan: Option<Percent>, manual: bool, clock: nat)

  datatype Command = SetFanDuty(percent: Percent) | AutoFanCtrl

  function ReplyTo(script: EcScript, clock: nat, command: Command): Reply {
    if command.SetFanDuty? then script.duty(clock) else script.auto(clock)
  }

  /** The EC carries out a command it acts on, and nothing else. */
  function AfterCommand(script: EcScript, s: EcState, command: Command): (EcState, bool) {
    var reply := ReplyTo(script, s.clock, command);
    var fan := if !reply.acted then s.fan
               else if command.SetFanDuty? then Some(command.percent) else None;
    (s.(fan := fan, clock := s.clock + 1), reply.ok)
  }

  function AfterRelease(script: EcScript, s: EcState): (EcState, Option<FanError>) {
    var (s', ok) := AfterCommand(script, s, AutoFanCtrl);
    if ok then (s'.(manual := false), None) else (s', Some(EcNotReleased))
  }

  function AfterSend(script: EcScript, s: EcState, duty: Duty): (EcState, Result<Duty, FanError>) {
    if 0 < duty < STICTION_DUTY then (s, Err(DutyCannotTurnFan(duty)))
    else
      var (s', ok) := AfterCommand(script, s, SetFanDuty(DutyToPercent(duty)));
      if ok then (s', Ok(PercentToDuty(DutyToPercent(duty)))) else (s', Err(EcFailed))
  }

  /** A duty command that fails gives the fan back before reporting the failure. */
  function AfterSendGuarded(script: EcScript, s: EcState, duty: Duty): (EcState, Result<Duty, FanError>) {
    var (s', r) := AfterSend(script, s, duty);
    if r.Ok? then (s', r)
    else
      var (s'', failure) := AfterRelease(script, s');
      if failure.Some? then (s'', Err(EcNotReleased)) else (s'', r)
  }

  function AfterTakeManual(script: EcScript, s: EcState, duty: Duty): (EcState, Result<Duty, FanError>) {
    if 0 < duty < STICTION_DUTY then (s, Err(DutyCannotTurnFan(duty)))
    else AfterSendGuarded(script, s.(manual := true), duty)
  }

  function AfterSetDuty(script: EcScript, s: EcState, duty: Duty): (EcState, Result<Duty, FanError>) {
    if !s.manual then (s, Err(NotUnderManualControl(Auto))) else AfterSendGuarded(script, s, duty)
  }

  /** The EC as an object: it changes its fan as commands arrive. */
  class EcDevice {
    var fan: Option<Percent>
    var clock: nat
    const script: EcScript

    constructor (fan: Option<Percent>, script: EcScript)
      ensures this.fan == fan && this.clock == 0 && this.script == script
    {
      this.fan := fan;
      this.clock := 0;
      this.script := script;
    }

    method Command(command: Command) returns (ok: bool)
      modifies this
      ensures clock == old(clock) + 1
      ensures ok == ReplyTo(script, old(clock), command).ok
      ensures fan == if !ReplyTo(script, old(clock), command).acted then old(fan)
                     else if command.SetFanDuty? then Some(command.percent) else None
    {
      var reply := ReplyTo(script, clock, command);
      clock := clock + 1;
      if reply.acted {
        match command
        case SetFanDuty(percent) => fan := Some(percent);
        case AutoFanCtrl => fan := None;
      }
      ok := reply.ok;
    }
  }

  class EcFanControl {
    const ec: EcDevice
    var manual: bool

    ghost function State(): EcState
      reads this, ec
    {
      EcState(ec.fan, manual, ec.clock)
    }

    constructor (ec: EcDevice)
      ensures this.ec == ec && !manual
    {
      this.ec := ec;
      manual := false;
    }

    method Release() returns (failure: Option<FanError>)
      modifies this, ec
      ensures (State(), failure) == AfterRelease(ec.script, old(State()))
    {
      var ok := ec.Command(AutoFanCtrl);
      if !ok {
        return Some(EcNotReleased);
      }
      manual := false;
      return None;
    }

    method Send(duty: Duty) returns (r: Result<Duty, FanError>)
      modifies ec
      ensures (State(), r) == AfterSend(ec.script, old(State()), duty)
    {
      if duty > 0 && duty < STICTION_DUTY {
        return Err(DutyCannotTurnFan(duty));
      }
      var percent := DutyToPercent(duty);
      var ok := ec.Command(SetFanDuty(percent));
      if !ok {
        return Err(EcFailed);
      }
      return Ok(PercentToDuty(percent));
    }

    method SendGuarded(duty: Duty) returns (r: Result<Duty, FanError>)
      modifies this, ec
      ensures (State(), r) == AfterSendGuarded(ec.script, old(State()), duty)
    {
      r := Send(duty);
      if r.Err? {
        var failure := Release();
        if failure.Some? {
          return Err(EcNotReleased);
        }
      }
    }

    method TakeManual(duty: Duty) returns (r: Result<Duty, FanError>)
      modifies this, ec
      ensures (State(), r) == AfterTakeManual(ec.script, old(State()), duty)
    {
      if duty > 0 && duty < STICTION_DUTY {
        return Err(DutyCannotTurnFan(duty));
      }
      manual := true;
      r := SendGuarded(duty);
    }

    method SetDuty(duty: Duty) returns (r: Result<Duty, FanError>)
      modifies this, ec
      ensures (State(), r) == AfterSetDuty(ec.script, old(State()), duty)
    {
      if !manual {
        return Err(NotUnderManualControl(Auto));
      }
      r := SendGuarded(duty);
    }
  }

  // ------------------------------------------------------------- what it keeps

  /** An EC that acknowledges a release has acted on it. The board offers nothing to check
      this against. */
  ghost predicate HonestReleases(script: EcScript) {
    forall n :: script.auto(n).ok ==> script.auto(n).acted
  }

  /** Every release is acted on and acknowledged. */
  ghost predicate ReleasesAccepted(script: EcScript) {
    forall n :: script.auto(n) == Reply(true, true)
  }

  /** A duty the EC acknowledges is the duty it holds. */
  ghost predicate HonestDuties(script: EcScript) {
    forall n :: script.duty(n).ok ==> script.duty(n).acted
  }

  /** If the EC holds the fan at a duty of ours, this process knows it. */
  predicate Believes(s: EcState) { s.fan.Some? ==> s.manual }

  /** No operation, however it fails and whichever reply is lost, leaves the EC holding the
      fan behind the process's back. */
  lemma BeliefKept(script: EcScript, s: EcState, duty: Duty)
    requires HonestReleases(script) && Believes(s)
    ensures Believes(AfterRelease(script, s).0)
    ensures Believes(AfterTakeManual(script, s, duty).0)
    ensures Believes(AfterSetDuty(script, s, duty).0)
  {}

  /** A release breaks the belief exactly when a held fan's release is acknowledged without
      being acted on. */
  lemma DishonestReleaseBreaksBelief(script: EcScript, s: EcState)
    requires Believes(s)
    ensures Believes(AfterRelease(script, s).0) <==> !(s.fan.Some? && script.auto(s.clock) == Reply(false, true))
  {}

  /** A duty operation breaks it exactly when its command fails and the release that follows
      is such a release. */
  lemma FailedDutyBreaksBeliefExactly(script: EcScript, s: EcState, duty: Duty)
    requires s.manual
    ensures
      var (sent, r) := AfterSend(script, s, duty);
      Believes(AfterSendGuarded(script, s, duty).0) <==>
        !(r.Err? && sent.fan.Some? && script.auto(sent.clock) == Reply(false, true))
  {}

  /** What one duty operation comes to when releases are accepted: the EC holds exactly the
      percent of the duty, or firmware owns the fan and the caller got an error. */
  lemma DutyOrFirmware(script: EcScript, s: EcState, duty: Duty)
    requires ReleasesAccepted(script) && HonestDuties(script)
    ensures
      var (s', r) := AfterSendGuarded(script, s, duty);
      if r.Ok? then s'.fan == Some(DutyToPercent(duty)) && s'.manual == s.manual
               else s'.fan == None && !s'.manual
    ensures
      var (s', r) := AfterSendGuarded(script, s, duty);
      r.Ok? ==>
        && Some(DutyToPercent(r.value)) == s'.fan && AbsDiff(r.value, duty) <= 1
        && ScaledBack(s'.fan.value) - 0.5 <= r.value as real <= ScaledBack(s'.fan.value) + 0.5
  {}

  /** A percent that is silence or turns the fan. */
  predicate Turns(fan: Option<Percent>) { fan.Some? ==> fan.value == 0 || fan.value >= 13 }

  /** No operation puts a percent between silence and the turning band on the wire. */
  lemma NothingStallsOnTheWire(script: EcScript, s: EcState, duty: Duty)
    requires Turns(s.fan)
    ensures Turns(AfterTakeManual(script, s, duty).0.fan)
    ensures Turns(AfterSetDuty(script, s, duty).0.fan)
    ensures Turns(AfterRelease(script, s).0.fan)
  {}

  /** What taking or changing the fan keeps, each on its own terms. */
  lemma WhatDutiesKeep(script: EcScript, s: EcState, duty: Duty)
    ensures Turns(s.fan) ==> Turns(AfterTakeManual(script, s, duty).0.fan) && Turns(AfterSetDuty(script, s, duty).0.fan)
    ensures HonestReleases(script) && Believes(s) ==>
      Believes(AfterTakeManual(script, s, duty).0) && Believes(AfterSetDuty(script, s, duty).0)
  {
    hide AfterTakeManual, AfterSetDuty, Turns, Believes;
    if Turns(s.fan) { NothingStallsOnTheWire(script, s, duty); }
    if HonestReleases(script) && Believes(s) { BeliefKept(script, s, duty); }
  }

  /** A duty that cannot turn the fan is never sent. Asked of a fan that is held, it gives the
      fan back; asked of one that is not, it changes nothing. */
  lemma UnturnableDutyGivesFanBack(script: EcScript, s: EcState, duty: Duty)
    requires 0 < duty < STICTION_DUTY
    ensures AfterTakeManual(script, s, duty) == (s, Err(DutyCannotTurnFan(duty)))
    ensures
      var (s', r) := AfterSetDuty(script, s, duty);
      && r.Err?
      && (!s.manual ==> s' == s)
      && (s.manual ==> s'.clock == s.clock + 1)
      && (s.manual ==> s'.fan == if script.auto(s.clock).acted then None else s.fan)
  {}
}
