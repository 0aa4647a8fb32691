# Fan control that is never quieter than firmware

fw-helper lets a user take a laptop's fan while promising that it is never run slower than
the firmware would run it. This project models the part of fw-helper that keeps that
promise. On the boards driven through the embedded controller (EC) it proves the promise end
to end: from the speed firmware was seen to want, through the learned floor, the margin, the
lease and its failure paths, to the percent the EC holds. On the board driven through sysfs,
where the register is read back, it proves exactly when the promise is kept: when the target of
a tick is three counts above what was learned. Otherwise the register may be a count under it.

## How the model is laid out

| file | what it models |
|---|---|
| `Board`, `FanScale`, `FloorModel` | the measured tables, the EC's percent scale, and the cold-start model: temperature to speed, speed to duty, and back |
| `Direction`, `Floor` | the Schmitt trigger that decides which samples count, and the learned table of 40 buckets |
| `Curve`, `CurveEngine`, `ProfileCurves` | validated curves, the engine that follows one, and the three shipped curves |
| `Thermal`, `FanErrors` | the ceiling, the battery guard, and the errors |
| `EcFan`, `SysfsFan` | the two backends, each with the hardware it drives |
| `Lease`, `LeaseObject` | the lease's decisions as functions, and the object that carries them out |
| `LeaseRuns`, `SysfsRuns`, `CurveRuns` | what holds over whole runs: on any board and on the EC, on sysfs, and with a curve active |
| `Watchdog`, `Govern`, `Daemon` | the watchdog, the governance tick, and the loop with its callers |
| `Text`, `StateText`, `ProfileText` | text handling, the state file and profile files |
| `Energy`, `IdlePower` | the wrapping energy counter and the idle-power floor |
| `InsertPoint` | the curve editor's one decision |
| `Prelude` | shared types and the arithmetic of straight lines |

Where the source changes fields in place there is a class with those fields
(`FanLease`, `FirmwareFloor`, `Direction`, `CurveEngine`, `EcFanControl`, `FanControl`,
`Watchdog`, `Governor`, `EnergySampler`, `Monitor`, `CurveEditor`), and every method is
proved to leave exactly the state a specification function of the old state gives. The
results over runs are about those functions.

## What is assumed

- **Hardware answers from a script.** Every command to the EC may be acted on or not and may
  answer or not; every access to the hwmon node may report success or failure and may apply,
  ignore or quantize what is written. Results quantify over all scripts; what a result needs of
  them is in its `requires`. `EcFan.ReleasesAccepted` and `EcFan.HonestDuties` (a duty that is
  acknowledged is held) are the two the promise itself needs; a duty command may still be
  refused, be lost, or take effect and have its reply lost.
- **The registers move by themselves.** Between any two steps the mode and duty registers of a
  sysfs board may come to hold anything: firmware changes its own duty, and other programs may
  write. Where a result needs nothing else to take the fan by hand, it says so
  (`SysfsRuns.Undisturbed`). While the mode is manual the duty register shows ours.
- **Each public method is one atomic step.** Locks and atomics are not modelled any finer.
- **Floating point is real arithmetic**; a NaN or an infinity is `NonFinite`. Casts that
  truncate, saturating arithmetic, clamps to `u8` and `u16`, and rounding to whole percents
  are written out.
- **The hwmon node is present** for as long as the lease exists, and each board has one fan
  interface: sysfs, the EC, or none.
- Table results hold for any board whose tables are well formed (`Board.WellFormed`); both
  measured boards are.
- Time is in milliseconds for the watchdog and nanoseconds for energy. A temperature in a
  profile file is an exact decimal.

## What the proofs found

- A stale watchdog check whose read of `pwm1_enable` fails does nothing: `mode()` is `None`,
  which is not `Manual`, and the register counts as observable. A fan held by a stopped daemon
  stays held, silently, for as long as reads fail (`Watchdog.BlindCheckLeavesFanHeld`). That is
  the only case (`Watchdog.StaleCheckFreesExactly`), and the response is bounded by how many
  checks in a row it lasts (`Watchdog.StoppedHeartIsAnswered`).
- A modelled speed strictly between 0 and 1 rpm truncates to zero and the floor allows
  silence there (`FloorModel.SliverOnIntel`). Everywhere else the margin absorbs the truncation
  (`FloorModel.FloorBeatsUntruncatedSpeedExactly`).
- On sysfs the tolerance of a verified write is three counts and the margin two, so a tick that
  succeeds may leave the register a count under a learned duty
  (`SysfsRuns.ToleranceCostsACount`). No node can exactly when the target of the tick is three
  counts above that duty (`SysfsRuns.ToldDutyKeptExactly`), and where nothing is learned exactly
  when three counts under the target still reach the modelled speed
  (`SysfsRuns.ModelKeptExactly`).
- The daemon asks its own flag, not the mode, whether firmware has the fan. `release_now` clears
  the flag even when the release fails, and a reclaim that cannot read the mode does nothing; on
  sysfs the next tick then records our own duty as firmware's, and the floor can fall to zero at
  a hot temperature (`Govern.RefusedReleaseTeachesOurs`, `SysfsRuns.BlindReclaimLeavesFanManual`).
  A tick does so exactly when it finds the mode manual (`Govern.OursLearnedExactly`), and none
  does where releases work, a refused switch is refused and reclaims can read the mode
  (`SysfsRuns.RunKeepsHand`, `Daemon.OursNeverLearned`).
- A mode that is neither manual nor automatic is taken back at startup but not by the watchdog
  (`SysfsRuns.RestartFreesExactly`, `Watchdog.StaleCheckFreesExactly`).
- `FanControl::take_manual` is documented to release on any failure after the mode switch. If
  the switch itself reports an error but took effect, it returns without releasing
  (`SysfsFan.MisreportedSwitchIsKept`); that is the only exception
  (`SysfsFan.TakeManualEndsClean`).
- `insert_point` is documented never to make a curve invalid. Extending a curve whose last duty
  is 0 gives the new point duty 10, which the validator refuses
  (`InsertPoint.StoppedCurveIsMadeInvalid`); that is the only exception
  (`InsertPoint.InsertValidExactlyWhen`), and it does not stop repeated insertion from ending.
- `EnergySampler::sample` is documented to average since the previous accepted sample. The
  reference moves on every reading, accepted or not, so after a refused one the figure is an
  average since that one (`Energy.RefusedReadingMovesReference`). The two agree exactly when the
  power was the same on both sides of it (`Energy.AveragesSinceExactly`).
- A release that the EC acknowledges and does not act on leaves a held fan unknown, as the
  source says; nothing else a release does can (`EcFan.DishonestReleaseBreaksBelief`).
- Duties 1 to 32 are requested by ramps (`Engine.RampsPassThroughStiction`). On the EC path they
  are refused and the fan is given back, exactly when nothing else bounds the request
  (`LeaseRuns.TickRefusedExactly`), and none ever reaches the wire
  (`LeaseRuns.NothingEverStalls`).

In each case the model does what the code does.

## Model

| member | source | states |
|---|---|---|
| Daemon.WitnessedSpeedIsHonoured | crates/fw-helperd/src/main.rs:433-481 | Whenever the poll loop saw firmware want a speed at a tracked temperature, then for as long as that process runs, whatever is asked of it in between, every later tick in the same bucket leaves the fan with firmware or turning at least that fast (up to the fan's top speed) |
| Daemon.EveryTickHonoursHistory | crates/fw-helperd/src/main.rs:433-481 | After every tick of the loop, over any interleaving with requests, suspends and restarts, firmware owns the fan or the percent the EC holds honours everything the running process was told |
| Daemon.DaemonRunIsALeaseRun | crates/fw-helperd/src/main.rs:433-481 | On every board each run of the loop and its callers is a run of the lease, so every lease invariant holds of it |
| Daemon.WitnessedDutyIsKeptExactly | crates/fw-helperd/src/main.rs:433-481 | On sysfs, whenever the loop saw firmware at a duty, every later good tick of that process in the same bucket leaves the register near it, and at or above it in every world if and only if the target is three counts above it |
| Daemon.OursNeverLearned | crates/fw-helperd/src/main.rs:452-481 | On sysfs runs where releases work, a refused switch is refused, nothing else takes the fan by hand and reclaims can read the mode, no tick takes a duty of ours for firmware's |
| LeaseRuns.NeverQuieterThanFirmware | crates/fw-helperd/src/fan.rs:530-611 | From any start on any well-formed EC board, through any events with duty commands failing arbitrarily, a tick leaves the fan with firmware or at a percent no slower than every duty and every target speed learned at that temperature, else than the model |
| LeaseRuns.AcceptedRequestsNeverQuieter | crates/fw-helperd/src/fan.rs:485-737 | The same after every accepted hand-set duty, accepted curve and accepted restore on resume |
| LeaseRuns.TickNeverQuieter | crates/fw-helperd/src/fan.rs:530-637 | One tick from any controlled state: an unreadable sensor always gives the fan back, and otherwise what is held dominates firmware at the temperature of the tick, whichever command fails |
| LeaseRuns.SetDutyNeverQuieter | crates/fw-helperd/src/fan.rs:485-517 | An accepted request is held at exactly the percent of the raised target, never below the request and never quieter than firmware |
| LeaseRuns.SetCurveNeverQuieter | crates/fw-helperd/src/fan.rs:642-655 | An accepted curve's first tick is never quieter than firmware, and control is kept when it is refused |
| LeaseRuns.RunKeepsControl | crates/fw-helperd/src/fan.rs:485-750 | On every run with releases accepted, a lease that is not held means firmware owns the fan, and a fan the EC holds is known to be held |
| LeaseRuns.FloorIsHistory | crates/fw-helperd/src/fan.rs:341-359 | The table at the end of any run is exactly what the running process was told, and a restart forgets all of it |
| LeaseRuns.DominanceHonoursHistory | crates/fw-helper-core/src/floor.rs:358-379 | A percent above the floor of a table dominates every event that taught the table, in duty and in fan speed |
| LeaseRuns.BeliefOnEveryRun | crates/fw-helperd/src/ec.rs:327-427 | On every EC run, lost replies and refused releases included, a fan the EC holds for this process is one it believes it holds, each restart having found the fan free or had its reclaim acted on |
| LeaseRuns.RestartRecoversExactly | crates/fw-helperd/src/fan.rs:455-479 | After a process death the new process knows who holds the fan if and only if the fan was free or its first release is acted on |
| EcFan.BeliefKept | crates/fw-helperd/src/ec.rs:327-427 | Releasing, taking and changing the fan each keep the belief, whether the command was acted on, refused, or acted on with the reply lost |
| EcFan.DishonestReleaseBreaksBelief | crates/fw-helperd/src/ec.rs:417-427 | A release loses track of the fan if and only if the fan was held and its release is acknowledged without being acted on: the weaker guarantee the source documents |
| EcFan.FailedDutyBreaksBeliefExactly | crates/fw-helperd/src/ec.rs:345-357 | A duty operation loses track of it if and only if its command fails and the release that follows is such a release |
| EcFan.DutyOrFirmware | crates/fw-helperd/src/ec.rs:345-358 | A guarded duty command ends with the EC at exactly that percent, or with firmware owning the fan and an error |
| EcFan.NothingStallsOnTheWire | crates/fw-helperd/src/ec.rs:327-427 | Taking, changing and releasing never put a percent from 1 to 12 on the wire |
| LeaseRuns.NothingEverStalls | crates/fw-helperd/src/ec.rs:327-330 | On every run in every world the EC holds silence or a percent that turns the fan |
| EcFan.UnturnableDutyGivesFanBack | crates/fw-helperd/src/ec.rs:327-357 | A duty from 1 to 32 is never sent: asked of a held fan it sends the release instead, asked of a free one it changes nothing |
| LeaseRuns.TickRefusedExactly | crates/fw-helperd/src/fan.rs:572-610 | A held tick is refused for its duty if and only if nothing bounds it and the request is from 1 to 32; firmware then owns the fan |
| Engine.RampsPassThroughStiction | crates/fw-helper-core/src/curve.rs:263-282 | Such duties are requested: a stopped fan on a valid curve is asked for duty 12 on its way up |
| EcFan.EcFanControl.Release | crates/fw-helperd/src/ec.rs:421-427 | Sends the release and forgets the fan only when it is acknowledged; new EC state, belief and answer are those of the specification |
| EcFan.EcFanControl.Send | crates/fw-helperd/src/ec.rs:327-342 | Refuses a duty that cannot turn the fan, else sends its percent and reports the duty that percent stands for; new EC state, belief and answer are those of the specification |
| EcFan.EcFanControl.SendGuarded | crates/fw-helperd/src/ec.rs:345-357 | A failed duty command is followed by a release before the error is reported; new EC state, belief and answer are those of the specification |
| EcFan.EcFanControl.TakeManual | crates/fw-helperd/src/ec.rs:397-406 | Records the belief before the first command is sent; new EC state, belief and answer are those of the specification |
| EcFan.EcFanControl.SetDuty | crates/fw-helperd/src/ec.rs:408-416 | Refuses to become an unannounced takeover; new EC state, belief and answer are those of the specification |
| EcFan.EcDevice.Command | crates/fw-helperd/src/ec.rs:519-554 | The EC as the environment: acts on a command or not, and answers or not, as its script says |
| LeaseRuns.NeverRatchets | crates/fw-helperd/src/fan.rs:530-611 | On either backend, after any ticks and whatever moves the registers between them, a tick that fails and releases nothing leaves an applied duty that depends only on the original request, the floor table and the current readings |
| LeaseRuns.PinnedDutyStands | crates/fw-helperd/src/fan.rs:485-611 | From the request on: after an accepted duty with no curve, and any ticks and register changes, every good tick of a held fan applies that duty or what bounds it there and then, and a suspend keeps that duty and asks for it on resume |
| LeaseRuns.RequestIsRemembered | crates/fw-helperd/src/fan.rs:502-516 | An accepted request leaves the duty asked for as the request and the raised target as applied; a refused one leaves request, applied and held as they were |
| LeaseRuns.BoundIsTheLouder | crates/fw-helperd/src/fan.rs:502-505 | What bounds a request is the louder of the firmware floor and the battery's demand |
| CurveRuns.CurveIsFollowed | crates/fw-helperd/src/fan.rs:568-611 | After an accepted curve, by the sixty-fourth tick at a constant temperature that neither releases nor fails, whatever moves the registers between, what is applied is the curve's duty at a point no cooler than the machine and under two degrees hotter, or what bounds it |
| CurveRuns.TickMovesRequest | crates/fw-helperd/src/fan.rs:568-574 | Each good tick moves the request toward what the curve draws within two degrees above the reading, by at most 12 up and 4 down but for the final stop, and stands still only when there |
| CurveRuns.AcceptedCurveIsFollowed | crates/fw-helperd/src/fan.rs:642-655 | An accepted curve is the one followed from then on, its first request exactly what it draws at the reading |
| CurveRuns.RefusedCurveIsForgotten | crates/fw-helperd/src/fan.rs:642-655 | A refused curve changes nothing but the fan |
| CurveRuns.ResumedCurveStartsOver | crates/fw-helperd/src/fan.rs:722-737 | After a resume the first good tick asks for exactly what the curve draws at the reading, with no ramp from before the sleep |
| CurveRuns.HandSetDutyLastsOneTick | crates/fw-helperd/src/fan.rs:568-574 | A duty set by hand does not clear a curve: the next good tick asks the engine again |
| LeaseRuns.CutOutsDecide | crates/fw-helperd/src/fan.rs:485-570 | With a reading, a request is refused as above the ceiling if and only if the reading is at least min(crit - 15, 100), or 97 without a critical point from 0 to 150, and otherwise as battery-hot if and only if the battery is at least crit - 2, or 48 without one from 20 to 80; a held tick releases at exactly the same readings |
| LeaseRuns.BlindMachineIsReleased | crates/fw-helperd/src/fan.rs:486-488 | With no reading every request is refused untouched and a held fan is let go of |
| LeaseRuns.UnmeasuredBoardIsNeverHeld | crates/fw-helperd/src/fan.rs:614-620 | On every run of a board whose fan was not measured the lease is never held |
| LeaseRuns.UnmeasuredRequestIsRefused | crates/fw-helperd/src/fan.rs:614-620 | There every request is refused and nothing is touched |
| LeaseRuns.ReleaseForgetsEverything | crates/fw-helperd/src/fan.rs:688-697 | A release forgets curve, request and pending restore whether or not it works, and answers whether it did |
| LeaseRuns.CorrectionIsReported | crates/fw-helperd/src/fan.rs:598-610 | A correction reports the register it found or else the duty last applied, where it settled, and the bound |
| LeaseRuns.DeadRegisterSaysNothing | crates/fw-helperd/src/fan.rs:430-445 | Where no duty can be read, a zero target on a fan above 500 rpm or an unreadable speed says nothing, and any other target is the least duty that reaches it |
| SysfsRuns.TickSettles | crates/fw-helperd/src/fan.rs:581-610 | On sysfs a tick that releases and fails nothing leaves the register within the tolerance of the duty applied, drift and quantization included |
| SysfsRuns.QuietTickExactly | crates/fw-helperd/src/fan.rs:576-600 | Where the register reads, a kept tick does nothing if and only if the target is what was last applied and the register is within three counts of it; then nothing is written |
| SysfsRuns.TickNearFloor | crates/fw-helperd/src/fan.rs:530-611 | On sysfs such a tick applies at least the floor at the temperature of the tick, and the register is within the tolerance of it |
| SysfsRuns.AcceptedDutyNearTarget | crates/fw-helperd/src/fan.rs:485-517 | An accepted request on sysfs targets at least the floor and the request, and reports the register it leaves, which is within the tolerance of the target |
| SysfsRuns.ToldDutyKeptExactly | crates/fw-helperd/src/fan.rs:530-611 | On sysfs, over whole runs and for every non-zero duty told at the temperature of a held tick: every good tick in every world leaves the register at or above it if and only if the target of the tick, known beforehand, is three counts above it |
| SysfsRuns.ModelKeptExactly | crates/fw-helperd/src/fan.rs:530-611 | Where nothing is learned, every good tick in every world turns the fan at the modelled speed, up to its top, if and only if three counts under the target still does; inside the table that is a target three counts above the answer for that speed |
| SysfsRuns.DutyKeptExactly | crates/fw-helper-core/src/fan.rs:374-384 | The same for any duty at any held tick, with a node that uses the whole tolerance |
| SysfsRuns.NeverFarBelowFirmware | crates/fw-helperd/src/fan.rs:530-611 | On sysfs over whole runs, however the node settles, a good tick leaves the register at most one count under anything learned there up to duty 253, and at most three at the saturating end |
| SysfsRuns.NeverFarBelowModel | crates/fw-helperd/src/fan.rs:530-611 | Where nothing is learned, one count more than the register shows turns the fan at the modelled speed, below the saturating end |
| SysfsRuns.RunKeepsHand | crates/fw-helperd/src/fan.rs:485-750 | On every sysfs run where releases work, a refused mode switch is refused, nothing else takes the fan by hand and each reclaim of a manual fan can read the mode, a lease that is not held means the mode is not manual |
| SysfsRuns.RestartFreesExactly | crates/fw-helperd/src/fan.rs:455-479 | After a process death on sysfs the fan is left manual with nobody holding it if and only if it was manual and the reclaim cannot read the mode; any mode it can read ends automatic |
| SysfsRuns.BlindReclaimLeavesFanManual | crates/fw-helperd/src/fan.rs:467-478 | That case is real: one failed read at startup |
| SysfsRuns.ReleaseForgetsExactly | crates/fw-helperd/src/fan.rs:742-750 | The last-resort release clears the flag whatever happens, and leaves the mode manual if and only if its write did |
| SysfsRuns.ToleranceCostsACount | crates/fw-helperd/src/fan.rs:581-610 | The count is really lost: told of 50, a node that settles three low is left at 49 and the tick succeeds |
| LeaseRuns.HotMachineIsReleased | crates/fw-helperd/src/fan.rs:490-570 | Whatever critical points the sensors report, at 100 degrees or with the battery at 78 no request is accepted and a held fan is let go of |
| LeaseRuns.ResumeReissuesRequest | crates/fw-helperd/src/fan.rs:706-737 | A suspend and resume is a release and a fresh request for the original duty, zero included, at the temperature of the wake |
| LeaseRuns.PendingMeansAsleep | crates/fw-helperd/src/fan.rs:706-737 | On every run a pending restore is owed to a suspend with no resume, release or restart since |
| LeaseRuns.RestoredAtMostOnce | crates/fw-helperd/src/fan.rs:688-737 | After a resume, release or restart, a later resume does nothing at all until the next suspend |
| LeaseRuns.UnheldSleepTakesNothing | crates/fw-helperd/src/fan.rs:706-725 | A fan not held at the suspend is not taken at the resume |
| LeaseObject.FanLease.Write | crates/fw-helperd/src/fan.rs:614-637 | Trusts the hardware mode over the flag, refuses an unmeasured board, and records the lease only after an accepted write; the whole new state of fields, curve engine, floor and hardware is the specification's |
| LeaseObject.FanLease.SetDuty | crates/fw-helperd/src/fan.rs:485-517 | Checks sensor, ceiling and battery in that order before touching hardware, and keeps the unclamped request; the whole new state of fields, curve engine, floor and hardware is the specification's |
| LeaseObject.FanLease.EnforceFloor | crates/fw-helperd/src/fan.rs:530-611 | Releases when blind, too hot or battery-hot, else moves the curve and holds the fan to the bounded request; the whole new state of fields, curve engine, floor and hardware is the specification's |
| LeaseObject.FanLease.Hold | crates/fw-helperd/src/fan.rs:572-610 | Writes when the decision changed or the register drifted, and re-asserts where no duty can be read; the whole new state of fields, curve engine, floor and hardware is the specification's |
| LeaseObject.FanLease.SetCurve | crates/fw-helperd/src/fan.rs:642-655 | Keeps the new curve only when its first request was accepted; the whole new state of fields, curve engine, floor and hardware is the specification's |
| LeaseObject.FanLease.Release | crates/fw-helperd/src/fan.rs:688-697 | Forgets curve, request and pending restore before releasing, and reports a release that failed; the whole new state of fields, curve engine, floor and hardware is the specification's |
| LeaseObject.FanLease.ReleaseForSleep | crates/fw-helperd/src/fan.rs:706-715 | Remembers the request of a held fan and gives it back; the whole new state of fields, curve engine, floor and hardware is the specification's |
| LeaseObject.FanLease.RestoreAfterResume | crates/fw-helperd/src/fan.rs:722-737 | Consumes the pending restore and re-issues it with the ramp forgotten; the whole new state of fields, curve engine, floor and hardware is the specification's |
| LeaseObject.FanLease.ReleaseNow | crates/fw-helperd/src/fan.rs:742-750 | Releases without failing and without touching curve or floor; the whole new state of fields, curve engine, floor and hardware is the specification's |
| LeaseObject.FanLease.ReclaimAtStartup | crates/fw-helperd/src/fan.rs:455-479 | Releases unconditionally where there is no mode register, else only a fan found held; the whole new state of fields, curve engine, floor and hardware is the specification's |
| LeaseObject.FanLease.FirmwareDuty | crates/fw-helperd/src/fan.rs:430-445 | Reads the duty firmware chose, or its target speed through the board's fan, and refuses a dead register; the whole new state of fields, curve engine, floor and hardware is the specification's |
| LeaseObject.FanLease.Observe | crates/fw-helperd/src/fan.rs:341-345 | Learning changes the floor and nothing else; the whole new state of fields, curve engine, floor and hardware is the specification's |
| LeaseObject.FanLease.RestoreFloor | crates/fw-helperd/src/fan.rs:353-359 | Restoring changes the floor and nothing else; the whole new state of fields, curve engine, floor and hardware is the specification's |
| Watchdog.StoppedHeartIsAnswered | crates/fw-helperd/src/watchdog.rs:66-124 | If the heart stops and at most f checks in a row fail to read the mode, a check more than 5000 and at most 6000 + 1000 f ms after the last beat leaves the fan free; whatever else is done to the lease, every check past the 5000 leaves it held if and only if it was held and the mode cannot be read |
| Watchdog.EcIsNeverBlind | crates/fw-helperd/src/watchdog.rs:94-108 | On a board with no mode register f is zero |
| Watchdog.BeatingHeartIsInvisible | crates/fw-helperd/src/watchdog.rs:66-124 | While no check comes more than 5000 ms after a beat, the lease does exactly what it would without the watchdog and no trip is recorded |
| Watchdog.FreshHeartbeatIsInvisible | crates/fw-helperd/src/watchdog.rs:87-90 | The same from the check's own point of view: checks that find a fresh heartbeat change nothing on any run |
| Watchdog.StaleCheckFreesExactly | crates/fw-helperd/src/watchdog.rs:87-124 | A check on a stale heartbeat leaves the fan held if and only if it was and the mode cannot be read, which is never so on the EC; then nothing is reported either, and a mode that is neither manual nor automatic is left as it is |
| Watchdog.BlindCheckLeavesFanHeld | crates/fw-helperd/src/watchdog.rs:94-108 | That case is real: a node whose reads fail keeps a fan held a minute after the heart stopped |
| Watchdog.LastBeatStands | crates/fw-helperd/src/watchdog.rs:66-76 | Nothing but a beat moves the heartbeat |
| Watchdog.Watchdog.Beat | crates/fw-helperd/src/watchdog.rs:66-69 | Moves the heartbeat and nothing else |
| Watchdog.Watchdog.Check | crates/fw-helperd/src/watchdog.rs:87-124 | Intervenes only when stale and manual, and releases silently where the mode is only a belief; new state and answer are the specification's |
| Govern.DescentTeachesNothing | crates/fw-helperd/src/main.rs:433-481 | On a hysteretic board, once falling, ticks that never climb two degrees above their running minimum leave the floor table exactly as it was, whatever duties firmware goes through between and during them and whoever holds the fan |
| Govern.DropTeachesNothing | crates/fw-helperd/src/main.rs:433-481 | From a cold start on a hysteretic board, after any run that ends rising, the tick two degrees under anything since the last change teaches nothing, and neither does any later one that never climbs two degrees above its minimum |
| Govern.ClimbIsLearned | crates/fw-helperd/src/main.rs:448-477 | And after a run that ends falling, a free tick two degrees above something since the last change tells the floor the duty it found, as rising |
| Govern.DirectionOfRun | crates/fw-helperd/src/main.rs:448-449 | The direction of a run is that of its readings, whoever holds the fan |
| Govern.BranchThatCounts | crates/fw-helperd/src/main.rs:452-459 | What is told counts while heating, and while cooling too only on a board known not to be hysteretic |
| Govern.HoldingTeachesNothing | crates/fw-helperd/src/main.rs:452-481 | A tick that finds the lease held teaches nothing |
| Govern.OursLearnedExactly | crates/fw-helperd/src/main.rs:452-481 | On sysfs a tick that finds the lease free and would learn what the register shows takes a duty of ours for firmware's if and only if the mode is manual |
| Govern.OursLearnedOnlyWhenFree | crates/fw-helperd/src/main.rs:452-481 | No tick does so with the lease held, or on a board without the registers |
| Govern.RefusedReleaseTeachesOurs | crates/fw-helperd/src/fan.rs:742-750 | It happens: a refused release clears the flag, the next hot tick records our own silence, and the floor at 80 degrees falls from a turning duty to zero |
| Govern.TickRecords | crates/fw-helperd/src/main.rs:452-481 | A tick tells the floor one observation or nothing |
| Govern.SpansAreBackedByTwoSamples | crates/fw-helperd/src/main.rs:461-479 | Between two unheld ticks, with firmware free to move its duty between them, a whole span is credited only when both ends were sampled and showed the same duty; otherwise the new sample's temperature alone |
| Govern.FirmwareMovesBetweenTicks | crates/fw-helperd/src/main.rs:474-477 | Where the duty can be read the two may indeed differ |
| Govern.Governor.GovernFan | crates/fw-helperd/src/main.rs:433-485 | One tick on the object: direction, remembered sample, floor and lease end as the specification says |
| Govern.Governor.Learn | crates/fw-helperd/src/main.rs:452-481 | The learning half changes only the floor and the remembered duty |
| Direction.ExtremeSinceFlip | crates/fw-helper-core/src/floor.rs:136-185 | For every run of readings the one live extreme is exactly the extreme since the last flip: the peak while rising, the trough while falling |
| Direction.FlipsExactlyOnTwoDegrees | crates/fw-helper-core/src/floor.rs:164-184 | For every run of readings the next one changes the direction if and only if it is two degrees, the other way, from some reading since the last change |
| Direction.NoMoveUnanswered | crates/fw-helper-core/src/floor.rs:164-184 | While rising no reading since the last change is two degrees above the latest, while falling none two below |
| Direction.StartsFalling | crates/fw-helper-core/src/floor.rs:144-152 | A cold start and one reading read as falling |
| Direction.OnlyReadableCount | crates/fw-helper-core/src/floor.rs:165-167 | Missing and non-finite readings might as well not have been made |
| Direction.FlipsBoundedByVariation | crates/fw-helper-core/src/floor.rs:164-185 | Twice the number of flips never exceeds the total variation of the readings |
| Direction.JitterNeverFlips | crates/fw-helper-core/src/floor.rs:108-119 | Readings confined to a band under two degrees never flip the direction, from any state consistent with the band |
| Direction.Direction.Update | crates/fw-helper-core/src/floor.rs:164-185 | An unreadable sample changes nothing; every other updates flag and extremes as specified |
| Floor.TableIsLoudest | crates/fw-helper-core/src/floor.rs:276-337 | For every sequence of observations and restores, each bucket holds the loudest duty of the events covering it, and is unseen exactly when there are none |
| Floor.OrderDoesNotMatter | crates/fw-helper-core/src/floor.rs:276-337 | Two histories with the same events in any order teach the same table |
| Floor.FloorCoversHistory | crates/fw-helper-core/src/floor.rs:358-379 | The floor at a temperature is never below any duty recorded for its bucket, in counts and as the percent on the wire |
| Floor.FloorIsTight | crates/fw-helper-core/src/floor.rs:358-379 | Where firmware was seen the floor is silence, 33, or the loudest told plus two capped at 255; with no reading it is 255 |
| Floor.UntoldFloorIsTheModels | crates/fw-helper-core/src/floor.rs:358-379 | Where nothing was told the floor is silent exactly where the model is, at most two counts above a duty that reaches the modelled speed, and full from the fan's top speed up |
| Floor.BucketsAreTwoDegrees | crates/fw-helper-core/src/floor.rs:243-249 | Bucket i is exactly the temperatures from 30 + 2i up to 32 + 2i, and there is one from 30 up to 110 |
| Floor.LearnAt | crates/fw-helper-core/src/floor.rs:276-306 | One event raises exactly the buckets it covers and only ever raises them |
| Floor.RevisionTracksTable | crates/fw-helper-core/src/floor.rs:299-311 | Over any run the revision is unchanged if and only if the table is |
| Floor.RevisionBounded | crates/fw-helper-core/src/floor.rs:299-311 | From a fresh floor the revision never exceeds 40 x 256 = 10240, so learning stops |
| Floor.SavesBounded | crates/fw-helperd/src/main.rs:850-867 | However long a process runs and however often a save comes due, it saves the floor at most 10240 times |
| Floor.SaveCatchesUp | crates/fw-helperd/src/main.rs:850-867 | Once a save has come due nothing learned is left unsaved |
| Floor.RestoreObservations | crates/fw-helper-core/src/floor.rs:318-337 | Exporting a table and restoring it into a fresh floor gives the same table |
| Floor.FirmwareFloor.ObserveSpan | crates/fw-helper-core/src/floor.rs:276-297 | The loop over the span leaves exactly the specified table and revision, one tracked end included |
| Floor.FirmwareFloor.Record | crates/fw-helper-core/src/floor.rs:299-306 | One bucket is raised or nothing changes |
| Floor.FirmwareFloor.Restore | crates/fw-helper-core/src/floor.rs:331-337 | Every tracked entry is recorded in order, and the rest are ignored |
| Floor.FirmwareFloor.ForBoard | crates/fw-helper-core/src/floor.rs:221-228 | A new floor has seen nothing |
| FloorModel.DutyForRpmIsAdjoint | crates/fw-helper-core/src/floor.rs:430-453 | For every well-formed fan table and speed inside it, a duty reaches the speed if and only if it is at least the answer |
| FloorModel.DutyForRpmSuffices | crates/fw-helper-core/src/floor.rs:430-453 | Any point of the scale from the answer up reaches the speed or the fan's top, past the end of the table too |
| FloorModel.DutyForRpmZero | crates/fw-helper-core/src/floor.rs:430-437 | Silence is the answer to zero rpm and to nothing else |
| FloorModel.ForwardMonotone | crates/fw-helper-core/src/floor.rs:513-530 | A louder duty never turns the fan slower, for every well-formed table |
| FloorModel.MarginSurvivesTheWire | crates/fw-helper-core/src/floor.rs:65-76 | The two-count margin outlives rounding to a whole percent: what the EC holds is still at least the unmargined duty, with 0.73 counts to spare |
| FloorModel.ModelledFloorOnTheWire | crates/fw-helper-core/src/floor.rs:358-379 | At every temperature the modelled floor, sent as a percent, turns the fan at least as fast as the modelled speed, up to its top |
| FloorModel.MarginAbsorbsTruncation | crates/fw-helper-core/src/floor.rs:414-423 | The same margin absorbs the truncation of the speed to an integer, on a fan whose speed rises two rpm a count |
| FloorModel.FloorBeatsUntruncatedSpeedExactly | crates/fw-helper-core/src/floor.rs:358-379 | A fan held exactly at the modelled floor beats the untruncated speed if and only if that speed is not strictly between 0 and 1 rpm |
| FloorModel.SliverOnIntel | crates/fw-helper-core/src/floor.rs:414-423 | The exception is real: at 44.902 degrees on the Intel board firmware is turning the fan up and the floor allows silence |
| FloorModel.SpeedAtMostTop | crates/fw-helper-core/src/floor.rs:397-427 | Below the full-duty temperature the model never asks for more than the fan's top speed |
| FloorModel.SpeedAtRows | crates/fw-helper-core/src/floor.rs:397-427 | For every well-formed board the modelled speed at a measured temperature is the measured one, and below the first row the first row's |
| FloorModel.SpeedBetweenRows | crates/fw-helper-core/src/floor.rs:419-425 | Between two measured rows it is the straight line through them, ends included |
| FloorModel.SpeedAboveRows | crates/fw-helper-core/src/floor.rs:404-415 | From the last row it is the straight line to the fan's top speed at 95 degrees, and from there up no less than that |
| FloorModel.SpeedMonotone | crates/fw-helper-core/src/floor.rs:397-427 | A hotter machine is never modelled with a slower fan |
| FloorModel.TargetDropsFraction | crates/fw-helper-core/src/floor.rs:397-427 | The modelled target is that speed with its fraction dropped; with no reading it is no less than the fan can turn |
| FloorModel.ModelledFloorIsTight | crates/fw-helper-core/src/floor.rs:358-379 | The modelled floor is silent exactly where the speed is nothing, and otherwise at most two counts above any duty that reaches it, or the least duty that turns a fan |
| Board.MeasuredBoardsAreWellFormed | crates/fw-helper-core/src/board.rs:56-149 | Both measured boards meet every assumption the results make of a table |
| FanScale.PercentRoundTrip | crates/fw-helper-core/src/ec.rs:75-87 | Every whole percent survives the trip through duties, and a duty comes back at most one count away |
| FanScale.PercentMonotone | crates/fw-helper-core/src/ec.rs:75-77 | A louder duty never becomes a lower percent |
| FanScale.PercentLoss | crates/fw-helper-core/src/ec.rs:75-77 | Rounding loses at most 1.27 counts, and full duty loses nothing |
| SysfsFan.TakeManualEndsClean | crates/fw-helper-core/src/fan.rs:278-316 | Under every pattern of failed, ignored or quantized accesses a takeover ends manual at a verified duty, with the EC owning the fan, or in the error that says it was not given back, if and only if the duty was refused outright or the mode switch did not take effect while reporting failure |
| SysfsFan.MisreportedSwitchIsKept | crates/fw-helper-core/src/fan.rs:290-307 | The exception is real: a switch that works and reports failure ends in an I/O error with the fan manual |
| SysfsFan.SetDutyEndsClean | crates/fw-helper-core/src/fan.rs:318-385 | A change of duty ends verified, released, reported as not released, or having touched nothing |
| SysfsFan.ReleaseIsVerified | crates/fw-helper-core/src/fan.rs:330-353 | A release reported as done was seen in the mode register |
| SysfsFan.FanControl.TakeManual | crates/fw-helper-core/src/fan.rs:278-307 | Takes the fan, verifies mode and duty, and releases on a failure after the switch; registers and answer are the specification's |
| SysfsFan.FanControl.SetDuty | crates/fw-helper-core/src/fan.rs:318-324 | Refuses without manual mode, else writes and verifies under the guard; registers and answer are the specification's |
| SysfsFan.FanControl.Release | crates/fw-helper-core/src/fan.rs:330-340 | Writes the mode and reports what it then reads; registers and answer are the specification's |
| SysfsFan.FanControl.ReleaseBestEffort | crates/fw-helper-core/src/fan.rs:347-352 | Ignores the write's answer and trusts only the mode read back; registers and answer are the specification's |
| SysfsFan.FanControl.Guard | crates/fw-helper-core/src/fan.rs:355-368 | A failure releases before it is reported, and a failed release is reported instead; registers and answer are the specification's |
| SysfsFan.FanControl.WriteDutyVerified | crates/fw-helper-core/src/fan.rs:374-384 | A write counts only when read back within three counts; registers and answer are the specification's |
| Curve.NewCurveAcceptsExactlyValid | crates/fw-helper-core/src/curve.rs:107-134 | A point list is accepted if and only if it is a valid curve, and is kept unchanged |
| Curve.RefusalNamesARealFault | crates/fw-helper-core/src/curve.rs:107-134 | A refused curve has the fault named, at the point named |
| Curve.DutyMonotone | crates/fw-helper-core/src/curve.rs:142-165 | A hotter machine never gets less air, over all real temperatures |
| Curve.DutyHitsPoints | crates/fw-helper-core/src/curve.rs:142-165 | Every drawn point is honoured exactly and no temperature leaves the end duties |
| Curve.DutyFollowsTheLine | crates/fw-helper-core/src/curve.rs:142-165 | Between two points the duty is within half a count of the straight line through them, and 255 with no reading |
| Curve.BreakpointsSuffice | crates/fw-helper-core/src/curve.rs:142-165 | Two curves ordered at the merged breakpoints are ordered at every real temperature |
| Curve.DutyDominance | crates/fw-helper-core/src/curve.rs:142-165 | That order survives rounding to duties and an unreadable sensor |
| ProfileCurves.ProfilesAreOrdered | crates/fw-helper-core/src/profile.rs:117-171 | The three shipped curves are valid and quiet <= balanced <= performance at every temperature |
| Engine.WorkingTracksReading | crates/fw-helper-core/src/curve.rs:252-261 | After every finite tick the working point is at or above the reading by less than two degrees |
| Engine.WobbleIsNotFollowed | crates/fw-helper-core/src/curve.rs:252-261 | Readings that stay under two degrees below the working point, in any order and number, leave it where it is |
| Engine.RealMovesAreFollowed | crates/fw-helper-core/src/curve.rs:246-261 | A climb and a fall of two degrees are followed at once, and an unreadable sensor asks for 255 and forgets everything |
| Engine.TickIsGentle | crates/fw-helper-core/src/curve.rs:263-282 | Output moves toward the target without passing it, by at most 12 up and 4 down but for the final stop, and never idles below stiction when the target is a stop |
| Engine.TickMovesExactly | crates/fw-helper-core/src/curve.rs:263-282 | By exactly twelve up or four down, or what is left, but for the final stop and the way out of it |
| Engine.ClosesFourPerTick | crates/fw-helper-core/src/curve.rs:246-283 | At a constant temperature the distance to the target shrinks by four counts a tick |
| Engine.SettlesWithin64 | crates/fw-helper-core/src/curve.rs:246-283 | Every engine, whatever its history, is on its curve within 64 ticks of a constant temperature and stays there |
| Engine.CurveEngine.Tick | crates/fw-helper-core/src/curve.rs:246-283 | Working point, last duty and answer are the specification's, the unreadable sensor included |
| Engine.CurveEngine.Reset | crates/fw-helper-core/src/curve.rs:240-243 | Forgets the ramp and keeps the curve |
| ThermalInputs.BatteryGuardEscalates | crates/fw-helper-core/src/battery.rs:80-104 | The guard only tightens as the battery warms and already asks for full duty wherever it would give the fan back |
| ThermalInputs.ThresholdsAreCapped | crates/fw-helper-core/src/ceiling.rs:71-82 | Every ceiling is at most 100 degrees and at least 15 below a critical point it believed; every battery release point is from 18 to 78, above its ramp and below its critical point |
| ThermalInputs.CutOutsAreExact | crates/fw-helper-core/src/ceiling.rs:71-99 | Ceiling and battery guard are exceeded at exactly the stated numbers and above; no reading exceeds the ceiling and not the battery guard |
| ThermalInputs.BatteryRamp | crates/fw-helper-core/src/battery.rs:80-104 | Six degrees before its release point the guard starts to ask for full duty times the share passed, rounded up and never under 33; nothing before and all of it after |
| InsertPoint.InsertValidExactlyWhen | crates/fw-helper-gui/src/curve.rs:493-534 | A refused insertion is one with no gap and no room; otherwise the old points are kept in order and the curve stays valid if and only if a gap was split or the last duty turns the fan |
| InsertPoint.StoppedCurveIsMadeInvalid | crates/fw-helper-gui/src/curve.rs:524-532 | The exception is real: two stopped points a degree apart are a valid curve, and the point added has duty 10 |
| InsertPoint.InsertUsesRoom | crates/fw-helper-gui/src/curve.rs:493-534 | On any points at all, in order or not and whatever their duties, an insertion uses up whole degrees inside the gaps or room above the last point |
| InsertPoint.RepeatedInsertionStops | crates/fw-helper-gui/src/curve.rs:493-534 | Repeated insertion stops from any points, through invalid curves too: no run is longer than the room there was |
| InsertPoint.OrderedInsertionsBounded | crates/fw-helper-gui/src/curve.rs:493-534 | From points with ascending temperatures at most 180 are ever added |
| InsertPoint.InsertionKeepsOrder | crates/fw-helper-gui/src/curve.rs:493-534 | Ascending temperatures stay ascending and below 120, even where the new duty is not one a curve may have |
| InsertPoint.SplitIsValid | crates/fw-helper-gui/src/curve.rs:504-522 | Splitting a gap of two degrees always keeps the curve valid |
| InsertPoint.SplitLandsHalfway | crates/fw-helper-gui/src/curve.rs:494-522 | A split is of the first widest gap, at the whole degree nearest its middle and the duty halfway, or the nearer edge of the stalling band |
| InsertPoint.ExtensionLandsAbove | crates/fw-helper-gui/src/curve.rs:524-533 | With nothing to split the point is five degrees up capped at 120 and ten counts louder capped at 255, or none above 118 |
| InsertPoint.CurveEditor.InsertPoint | crates/fw-helper-gui/src/curve.rs:493-534 | Whatever points the editor holds become the specified ones, or are left alone when there is no room |
| InsertPoint.CurveEditor.FindWidest | crates/fw-helper-gui/src/curve.rs:494-500 | The scan finds the first of the widest gaps |
| StateText.LearnedFloorSurvivesRestart | crates/fw-helper-core/src/floor.rs:318-337 | A learned floor saved, loaded and restored into a fresh floor bounds the fan at every temperature exactly as before |
| StateText.SavedIsLoaded | crates/fw-helperd/src/state.rs:84-155 | Every storable state is loaded as saved, the floor to the nearest degree and its board only with it |
| StateText.SavedFloorReadsBack | crates/fw-helperd/src/state.rs:140-149 | Any non-empty floor, unreadable and negative temperatures included, is read back entry for entry to the nearest degree |
| StateText.DamageStaysLocal | crates/fw-helperd/src/state.rs:73-81 | Reading a floor distributes over every comma: a damaged entry never affects its neighbours |
| StateText.DamagedEntriesAreSkipped | crates/fw-helperd/src/state.rs:73-81 | An entry with no colon, or with a duty over 255, is skipped |
| StateText.Load | crates/fw-helperd/src/state.rs:84-115 | The loop over the file's lines gives the fold of its lines, a missing file the defaults |
| StateText.Save | crates/fw-helperd/src/state.rs:119-155 | The text built up is the lines of the state's fields in order |
| ProfileText.ProfileRoundTrip | crates/fw-helperd/src/profiles.rs:138-217 | Every legal profile, with any legal name, curve length and charge limit, is parsed back exactly from its rendering |
| ProfileText.FilesHoldExactlyLegalProfiles | crates/fw-helperd/src/profiles.rs:163-217 | Some text parses to a profile if and only if the profile is legal |
| ProfileText.LegalExactly | crates/fw-helper-core/src/profile.rs:184-207 | Legal is a valid curve, a non-empty name of lower case, digits and dashes, 8 to 25 watts and a charge limit of 20 to 100 |
| ProfileText.ErrorNamesItsLine | crates/fw-helperd/src/profiles.rs:170-206 | An error names the first line that cannot be read, every line before it having been |
| ProfileText.StrayLinesAreRefused | crates/fw-helperd/src/profiles.rs:175-205 | A key that is none of the five and a line with no equals sign are refused as such |
| ProfileText.BadValuesAreRefused | crates/fw-helperd/src/profiles.rs:181-204 | And so is a value that is not one of its key's |
| ProfileText.CommentsDoNotCount | crates/fw-helperd/src/profiles.rs:171-171 | What follows a comment sign changes nothing |
| ProfileText.CurveReadsBack | crates/fw-helperd/src/profiles.rs:219-240 | Every valid curve is parsed back point for point from its text |
| ProfileText.ReadCurveIsValid | crates/fw-helperd/src/profiles.rs:219-240 | Whatever text a curve is read from, the curve is valid |
| ProfileText.Parse | crates/fw-helperd/src/profiles.rs:163-217 | The loop returns the first error with its line, else the finished draft |
| ProfileText.Render | crates/fw-helperd/src/profiles.rs:138-160 | The text built up is the header and one line per field |
| Text.ParsePrinted | crates/fw-helperd/src/profiles.rs:143-143 | A non-negative decimal printed in full parses back digit for digit |
| Text.ParseRounded | crates/fw-helperd/src/state.rs:144-144 | A temperature printed without decimals parses to the nearest degree, half to even, whatever it was |
| Text.ParseScientific | crates/fw-helperd/src/state.rs:78-78 | Digits with an exponent parse to the number times ten to it, negated by a minus |
| Text.NotANumber | crates/fw-helperd/src/state.rs:78-78 | Empty text, stray characters and values out of range are not numbers |
| Energy.AcceptedIsExact | crates/fw-helper-core/src/energy.rs:57-78 | A plausible sample is accepted if and only if its gap is, and what it reports is the exact average power across a wrap or not |
| Energy.ReportedExactlyWhen | crates/fw-helper-core/src/energy.rs:57-78 | Whatever the readings, nothing is reported without a reference, over no time, too long a gap or above 200 W, and every advance within those is |
| Energy.ReportsSumToEnergy | crates/fw-helper-core/src/energy.rs:57-78 | Over consecutively accepted samples watts times time sums to the energy consumed |
| Energy.AveragesSinceExactly | crates/fw-helper-core/src/energy.rs:57-78 | An accepted figure is the exact average since an earlier reading if and only if the power between that reading and the reference was the same; since the reference itself always |
| Energy.RefusedReadingMovesReference | crates/fw-helper-core/src/energy.rs:57-64 | The documented average fails: after a refused reading the sampler answers 10 W where the average since the last accepted one is under 4 W |
| Energy.AdvanceIsExact | crates/fw-helper-core/src/energy.rs:66-71 | Less than one range of true advance is recovered exactly from the wrapped readings |
| Energy.EnergySampler.Sample | crates/fw-helper-core/src/energy.rs:57-78 | The reference always becomes the new reading; the answer is the specified figure |
| Energy.EnergySampler.Invalidate | crates/fw-helper-core/src/energy.rs:50-52 | The next reading has no reference |
| IdlePower.LoneLowsAreIgnored | crates/fw-helper-core/src/telemetry.rs:149-163 | If the first block is at least x and no two in a row fall below x, the floor never falls below x |
| IdlePower.LoneQuietBlocksAreIgnored | crates/fw-helper-core/src/telemetry.rs:123-163 | The same over raw samples, refused ones included, grouped in thirties as they are accepted |
| IdlePower.SamplesAreBlocks | crates/fw-helper-core/src/telemetry.rs:123-134 | The tracker is exactly a run over the averages of non-overlapping blocks of thirty accepted samples |
| IdlePower.FloorOnlyFalls | crates/fw-helper-core/src/telemetry.rs:149-163 | On every run of blocks, every change to a known floor strictly lowers it |
| IdlePower.TwoLowsLowerTheFloor | crates/fw-helper-core/src/telemetry.rs:149-163 | After a block that is not low, two in a row below the floor lower it to the louder of the two, and the first of them alone does not |
| IdlePower.BlocksAreOfThirty | crates/fw-helper-core/src/telemetry.rs:86-134 | The blocks are of thirty accepted samples, end to end |
| IdlePower.FirstBlockIsTheFloor | crates/fw-helper-core/src/telemetry.rs:149-155 | The first block is the first floor |
| IdlePower.Monitor.ObserveSample | crates/fw-helper-core/src/telemetry.rs:123-134 | Window, floor and pending low are the specification's |
| IdlePower.Monitor.ObserveFloor | crates/fw-helper-core/src/telemetry.rs:149-163 | A low block is kept for confirmation, confirmed at the higher of the pair, or forgotten |

## Left out

- sysfs paths, ioctl encoding, hwmon lookup, D-Bus, polkit, power-profiles-daemon and logind plumbing, the applet, the CLI, the widgets and the probes: input and output around libraries that are not part of this model.
- The charge limit and the sustained power limit, their read-back and their corrections: only easy members.
- Matching a board by its DMI name, carrying a stored floor between boards by that name, capability strings, error text, and the bytes of an EC request: only easy members.
- Choosing which sensor to follow and reading the thermal inputs out of telemetry: a `Thermal` is a parameter, so results hold for every reading, ceiling and guard.
- Interleavings inside one lease method, poisoned locks, and releases from a panic hook or on drop: each method is one step.
- The debugging override of the ceiling and the wedge injection: development aids.
- The minute between saves of the floor: the model says how often a save that comes due is made, not when it does.
- Directory handling for profile files: which files are read, in what order, and which built-in one replaces.
- Rounding in the last bit of a double and overflow to infinity when parsing: decimals are exact.
- `CurveEngine::set_curve` and `FirmwareFloor::clamp`: nothing in the fan path calls them.
- The echo suppression of the power slider: it depends on the timing of outside events.
- LeaseRuns.NeverQuieterThanFirmware: is stated for EC boards; on sysfs it is false by a count, and what holds there is `SysfsRuns.ToldDutyKeptExactly`.
- InsertPoint.CurveEditor.InsertPoint: asks for at least one point, as the source does; the editor starts from a curve and never removes below two.
- FloorModel.MarginAbsorbsTruncation: needs the fan to gain two rpm a count once it turns, which both measured fans do by a wide margin.
- Energy.AcceptedIsExact: the counter is taken to show energy modulo the range it reports.
