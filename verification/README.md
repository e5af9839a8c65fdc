# Only Fan Controller: verified model

A Dafny 4.11 model of a fan controller that puts a Dell server's BMC into manual fan mode, reads
CPU and GPU temperatures on a timer, sets a fan speed, and hands cooling back to the BMC when its
sensors or its write channel fail. `dafny verify dfyconfig.toml` checks the whole project.

| file | content |
|---|---|
| `Basics`, `Config` | optional values, clock, readings; the fan-control configuration and its validation |
| `Bmc`, `Protocol` | the BMC as a mode and a command log; the command discipline as an automaton over the log alone |
| `Store`, `History` | hints and override against a log of commands and clean-ups; temperature history against the log of readings |
| `SpeedLaw`, `Trajectories` | one decision of the feedback law; the law iterated: closed forms, and when hotter means faster |
| `Control` | the control loop as a transition system: steps, ticks, and runs over any interleaving of ticks and API calls |
| `FanController` | the controller class, fields updated in place, each method proved against `Control` |
| `FailSafe`, `SpeedRuns`, `StoreRuns` | theorems over whole runs |
| `TickCommands` | the commands of one tick, in order, and the BMC mode any stretch of them leaves |
| `Discovery`, `DiscoveryRace` | the MQTT discovery protocol with atomic announcements, and its bridge class; the same protocol one config at a time, against reconnects |
| `Broker` | broker-address normalisation |
| `Shutdown` | the restore-once guard; the goroutines of shutdown as a transition system that runs the controller of `Control` one BMC command at a time |

How the model is set up:

- A run is any sequence of ticks and API calls. A tick's input holds everything the loop does not
  decide: the sensor outcome, its four clock readings, the BMC's answer to each command it may
  send, and the API calls that land between the two lock regions that touch hints and override.
  `Control.CallsCommute` shows why calls landing anywhere else need no separate treatment.
- A failed command leaves the BMC unchanged; an acknowledged mode command takes effect
  (`internal/controller/fan.go:245-247`). `Bmc.log` is an observer of everything sent.
- `Protocol` never looks at the controller's fields. `FailSafe.RunsObeyProtocol` ties the two, and
  alternation, conservation and stickiness are then proved about the automaton.
- Theorems about the fail-safe hold for every configuration. Theorems about speeds ask for what
  `Validate` promises, and where a step matters also for a non-negative `step_size`, which
  `Validate` does not look at (environment overrides are applied after it,
  `cmd/controller/main.go:215-225`).
- What the numbers of a configuration mean is stated apart from the functions that use them:
  `Config.Means` reads the settings as `config.example.yaml:20-39` explains them, and the theorems in
  degrees, percent, seconds and counts (`SpeedRuns.RampUpByTheDegree`, `SpeedRuns.HoldsToTheSecond`,
  `FailSafe.SensorLossAtTheLimit`, `StoreRuns.OverrideLasts` and their neighbours) speak of them only.

Where the code and its documentation disagree, the code is modelled:

- `README.md:51` promises no ramp-down until temperatures have stayed below the thresholds for the
  whole cooldown. The cooldown clock restarts only when the ramp branch decides on a hot reading. It
  does not when the emergency branch decides (`SpeedRuns.EmergencyDoesNotRestartCooldown`), when an
  override decides, or when the tick ends before deciding, because a reclaim is refused, a hand-back is
  unconfirmed or the write fail-safe is on (`SpeedRuns.RefusedReclaimHidesACrossing`).
  A missed crossing shows even at a speed that only a hint asked for, once the hint runs out or is
  removed (`SpeedRuns.ExpiringHintHidesACrossing`). `SpeedRuns.PromiseOverRuns` says exactly when the
  promise holds, over every run, counting every over-threshold reading that both sensors gave, and
  for every cool tick, whatever API calls land in it and whatever runs out, that decides without an
  override. A tick under an override follows the override and is not bound by the promise.
- Hotter readings do not always get a higher target: `SpeedLaw.MonotoneExactlyWhen` gives the exact
  condition for one decision, and `SpeedLaw.FirstTickIsNotMonotone` shows it fail at a controller's
  first tick. Over runs, an emergency can leave the hotter of two runs the slower one
  (`SpeedRuns.EmergencyBreaksTheOrder`); most do not. `SpeedRuns.HotterRunNeverSlower` allows every
  emergency except where the cooler machine is over a threshold without being critical, and
  `SpeedRuns.HotterRunsExactlyWhen` is an equivalence for all pairs of runs.
- `README.md:303-306` gives hint floors of 25, 35 and 45; the code uses 15, 25 and 45.
- `internal/mqtt/broker.go:15-33` promises a canonical form; a second pass can still change an
  address, such as `tcp://h:1883//` or `a]b::c` (`Broker.UnsafeAddresses`).
  `Broker.IdempotentExactlyWhen` says exactly which ones.
- `internal/mqtt/bridge.go:70-75` promises one announcement a connection. With announcements as
  atomic steps that is proved (`Discovery.OncePerConnection`). In `DiscoveryRace` single configs,
  marks, new connections and the callbacks that reset the map interleave freely:
  `DiscoveryRace.StaleMarkExactlyWhen` says exactly when a mark is not backed up by the connection, and
  `DiscoveryRace.AnnouncedAgainExactlyWhen` when an index is announced again on the connection that
  has it.
- `cmd/controller/main.go:322-323` calls the restore the single choke point that keeps the machine
  cooled. A tick in flight, or one that wins the race with the stop channel, can still reclaim manual
  mode after it (`Shutdown.InFlightReclaimEndsInManual`). `Shutdown.StopIsSafeExactlyWhen` says
  exactly which stops cannot end that way, whatever follows the tick in flight, whose answers are fixed
  by its input; `Shutdown.TickInFlightDecides` says exactly which stretches of a tick end that way.
  After a caught panic nothing is left to reclaim (`Shutdown.PanicPathEndsInAuto`).

## Model

| member | source | states |
|---|---|---|
| Config.Validate | internal/config/config.go:158-192 | accepts exactly the safe configurations (speed bounds, plausible critical temperatures above the effective thresholds, zones ordered pairwise and not only between neighbours, positive retention); each error names a clause that really fails |
| Protocol.CommandsGuarded | internal/controller/fan.go:206-260 | in every lawful log, a reclaim is sent only while an acknowledged recoverable hand-back is in force, a fan speed only while in control, a hand-back only before one is acknowledged |
| Protocol.ModeCommandsConserved | internal/controller/fan.go:357-416 | acknowledged hand-backs minus reclaims is one while handed back and zero otherwise |
| Protocol.ModeCommandsAlternate | internal/controller/fan.go:357-416 | two acknowledged hand-backs enclose a reclaim, two acknowledged enables enclose a hand-back |
| Protocol.StickyIsAbsorbing | internal/controller/fan.go:214-224 | after a sticky hand-back only hand-backs are sent, and none after the first acknowledged one |
| FailSafe.InvStep | internal/controller/fan.go:206-284 | every tick and every API call keeps log, counters, mode and current speed consistent |
| FailSafe.RunsObeyProtocol | internal/controller/fan.go:206-402 | the commands of any run obey the discipline and leave it in the very phase the controller's fields say |
| FailSafe.HandBacksConserved | internal/controller/fan.go:357-416 | over any run, hand-backs minus reclaims is 1 if the restore is confirmed and 0 if not |
| FailSafe.ConfirmedMeansAuto | internal/controller/fan.go:811-813 | fail-safe reported and not pending means the BMC is in automatic mode |
| FailSafe.ReclaimsArePaidFor | internal/controller/fan.go:319-327 | amortised, from any consistent state: each reclaim costs sensor limit + 1 ticks, up to the initial credit |
| FailSafe.NoFlapping | internal/controller/fan.go:206-284 | from boot, reclaims times (sensor limit + 1) never exceed the ticks run |
| FailSafe.NoFlappingIsTight | internal/controller/fan.go:206-284 | for every m some run reaches that bound with exactly m reclaims |
| FailSafe.Blackout | internal/controller/fan.go:316-338 | consecutive failed reads: nothing is sent before the limit, from the limit on one hand-back a tick until the first acknowledged one and then none, and the fans are never touched |
| FailSafe.PendingTick | internal/controller/fan.go:207-212 | a tick with a pending hand-back retries it first, once, and sends nothing else unless that is acknowledged |
| FailSafe.HandBackAttemptsPerTick | internal/controller/fan.go:329-402 | at most one hand-back attempt a tick, two in exactly one situation (write limit 1, acknowledged retry and reclaim, failed write) |
| FailSafe.WriteFailsafeAbsorbs | internal/controller/fan.go:214-224 | the write fail-safe is never left; speeds and counters freeze, hand-backs are the only commands, none after the first acknowledged one |
| FailSafe.CountersAreHistory | internal/controller/fan.go:236-239 | the sensor counter is the length of the trailing run of failed reads, the write counter the failed writes since the last acknowledged write or reclaim |
| FailSafe.FailsafesTripAtTheirLimits | internal/controller/fan.go:319-338 | over all runs: the write fail-safe is on exactly when the streak of refused writes is at the configured write limit; otherwise a trailing run of failed reads as long as the configured sensor limit means sensor fail-safe |
| FailSafe.SensorLossAtTheLimit | internal/controller/fan.go:319-327 | from boot, under failed reads only: in control and silent while fewer than sensor_failure_limit (3 if not positive) have failed, in the sensor fail-safe with a hand-back attempted from then on, whatever the write limit |
| FailSafe.WriteFailureAtTheLimit | internal/controller/fan.go:329-338 | from boot, under refused writes only: in control while fewer than write_failure_limit (3 if not positive) were refused, in the write fail-safe from then on, whatever the sensor limit |
| FailSafe.Watchdog | internal/controller/fan.go:316-338 | from any state in control, however failed reads and refused writes interleave: without an acknowledged fan write a hand-back is attempted within (write limit - 1 - failed writes) * sensor limit + sensor limit - failed reads ticks |
| FailSafe.WatchdogIsTight | internal/controller/fan.go:316-338 | from each such state some run of one tick fewer attempts none |
| FailSafe.FanSetsOfATick | internal/controller/fan.go:226-274 | a fan speed is sent only if both sensors answered; it is the tick's target, in the band, or the emergency speed on a critical reading |
| FailSafe.ActuatorTrace | internal/controller/fan.go:671-690 | every speed ever sent is within 0..100 and in the band or the emergency speed; current speed and last-write-failed are what the last acknowledged and the last write say |
| SpeedLaw.TargetInBand | internal/controller/fan.go:489-509 | a critical reading gets the emergency speed whatever override, hints and history say; any other target is in the band |
| SpeedLaw.HintsAreHonoured | internal/controller/fan.go:521-527 | without an override, no decision goes below any active hint's floor, up to the maximum speed |
| SpeedLaw.MonotoneExactlyWhen | internal/controller/fan.go:476-605 | for one state and clock, hotter readings never get a lower target if and only if there is an override, or no ramp band, or a cooldown hold, or one step up reaches what a cool reading gets |
| SpeedLaw.FirstTickIsNotMonotone | internal/controller/fan.go:554-580 | with the shipped defaults, the first tick of a controller answers 50 degrees with 20% and 66 degrees with 10% |
| SpeedLaw.HoldsDuringCooldown | internal/controller/fan.go:571-592 | no decision inside the cooldown lowers the speed |
| SpeedLaw.DropsByAtMostAStep | internal/controller/fan.go:581-590 | once a threshold has been crossed, a decision lowers the speed by at most a step |
| SpeedLaw.BaseIsKept | internal/controller/fan.go:581-601 | a speed at or above base is never decided below base |
| Trajectories.RampUpStep | internal/controller/fan.go:554-570 | one over-threshold tick advances the closed form by one |
| Trajectories.RampUpTrajectory | internal/controller/fan.go:554-570 | k over-threshold ticks from c reach max(c, min(max, needed, c + k steps)) |
| Trajectories.RampUpReaches | internal/controller/fan.go:563-570 | the rounded-up number of steps suffices |
| Trajectories.RampDownStep | internal/controller/fan.go:571-593 | one cooled tick advances the closed form by one |
| Trajectories.RampDownTrajectory | internal/controller/fan.go:571-593 | k cooled ticks from c reach max(rest, c - k steps), and the cooldown clock stays |
| Trajectories.RestIsUnique | internal/controller/fan.go:581-601 | a cooled speed is stationary exactly at the clamped maximum of hint floor and base |
| Trajectories.DistanceToRestShrinks | internal/controller/fan.go:581-601 | away from rest, every cooled tick comes closer without passing it |
| Trajectories.HotterTrajectory | internal/controller/fan.go:489-601 | from ordered speeds and clocks, the pointwise hotter of two trajectories stays the faster one, emergencies included, as long as at no beat the hot reading is critical while the cool one is over a threshold and not critical |
| Trajectories.OrderLastsExactlyWhen | internal/controller/fan.go:489-601 | one machine stays at or below another in every common future if and only if it is now and its cooldown clock does not let it outlast the other above rest |
| Trajectories.SeparationExactlyWhen | internal/controller/fan.go:489-501 | after one pair of readings of two ordered machines the order lasts in every common future if and only if the pair does not separate them, or the faster clock stood at that instant already, or both rest at full speed, or the cooldown is negative and cannot hold either |
| Trajectories.HotterOrderExactlyWhen | internal/controller/fan.go:489-601 | for any two sequences of pointwise hotter readings, the order holds after every beat and in every common future if and only if after no beat the slower machine outlasts the faster, judged by clocks computed from the readings alone |
| SpeedRuns.SteadyRunIsTrajectory | internal/controller/fan.go:206-284 | with sensors and writes healthy, no calls and no override, the whole loop is the iterated speed law |
| SpeedRuns.RampUpClosedForm | internal/controller/fan.go:551-601 | the ramp-up closed form for the speed of the loop |
| SpeedRuns.RampUpSettles | internal/controller/fan.go:563-570 | the loop reaches max(c, min(max, needed)) within the rounded-up number of steps and stays there |
| SpeedRuns.RampDownClosedForm | internal/controller/fan.go:571-601 | the ramp-down closed form for the speed of the loop |
| SpeedRuns.NeverHotGoesStraightToRest | internal/controller/fan.go:578-580 | a machine never over a threshold rests after one tick |
| SpeedRuns.RampUpByTheDegree | config.example.yaml:20-30 | in degrees and percent: with the hotter excess in the n-th five degrees over its threshold, the loop goes up a step a tick to idle plus n steps, within the limits, and stays |
| SpeedRuns.CoolDownByTheStep | internal/controller/fan.go:571-605 | in percent and seconds: once the configured cooldown has passed, down a step a tick to idle or what the hints ask for, within the limits |
| SpeedRuns.RestsAtOnce | internal/controller/fan.go:578-580 | a machine that was never hot goes there in one tick |
| SpeedRuns.HoldsToTheSecond | config.example.yaml:27-27 | a cool machine above rest holds its speed up to the last instant of the configured cooldown, and not beyond |
| SpeedRuns.EmergencyIsFull | internal/controller/fan.go:489-497 | a deciding tick at a critical temperature asks for the maximum speed (100 if that is no percentage above 0), whatever override, hints and history say |
| SpeedRuns.OverrideIsObeyed | internal/controller/fan.go:501-509 | otherwise an override in force gets its speed within the limits, whatever temperatures and hints say, and leaves the cooldown clock alone |
| SpeedRuns.ZoneIsShown | internal/controller/fan.go:533-545 | the zone on display, from the degrees |
| SpeedRuns.BaseNeverLost | internal/controller/fan.go:554-601 | over any run without overrides, failures included, a speed that reached base stays at or above it |
| SpeedRuns.SlewOverRuns | internal/controller/fan.go:581-590 | over any run without overrides, n ticks lower the speed by at most n steps |
| SpeedRuns.CooldownHolds | internal/controller/fan.go:571-592 | no run inside the cooldown lowers the speed |
| SpeedRuns.CooldownClock | internal/controller/fan.go:489-556 | the cooldown clock shows the latest over-threshold reading if the ramp decided on it, and something older if the emergency or override branch did or the tick ended before deciding |
| SpeedRuns.PromiseKeptExactlyWhen | README.md:51-51 | in any state, no cool tick within the cooldown of the last hot reading that decides without an override lowers the speed, if and only if the write fail-safe is on, or the clock shows that reading, or the speed is at most the base speed within the limits (or a whole step above the maximum) |
| SpeedRuns.PromiseOverRuns | README.md:51-51 | over all runs: if and only if the write fail-safe is on, or the ramp handled the latest over-threshold reading, or there is nothing to lower |
| SpeedRuns.RefusedReclaimHidesACrossing | internal/controller/fan.go:248-257 | a run with default settings in which 80 degrees are read in a tick whose reclaim is refused, and ten seconds later the speed drops from 50% to 40% |
| SpeedRuns.ExpiringHintHidesACrossing | internal/controller/fan.go:571-593 | the same at 45%, the very speed a hint asks for: the hint expires at 105 s and at 110 s the speed drops to 35% |
| SpeedRuns.EmergencyDoesNotRestartCooldown | internal/controller/fan.go:489-497 | with default settings the speed drops ten seconds after an emergency |
| SpeedRuns.HotterRunNeverSlower | internal/controller/fan.go:489-601 | from one state at or above base, the hotter of two runs is never the slower, emergencies included, unless one comes while the cooler run is over a threshold and not critical |
| SpeedRuns.HotterRunsExactlyWhen | internal/controller/fan.go:489-601 | for all pairs of such runs: the hotter is at least as fast after every tick and in every common future if and only if the cooldown clock of the cooler run never outlasts the other's |
| SpeedRuns.EmergencyBreaksTheOrder | internal/controller/fan.go:489-497 | an instance where it does: at the cool reading after an emergency the hotter machine is at 20% and the cooler one at 30% |
| Store.FloorUnique | internal/controller/fan.go:521-527 | the hint floor does not depend on the order the map is visited in |
| Store.StoreRefinesLog | internal/controller/fan.go:657-729 | a hint is active if and only if the log registered it and nothing since replaced, removed or found it expired |
| Store.OverrideRefinesLog | internal/controller/fan.go:666-772 | the same for the override |
| Store.LastCleanDecides | internal/controller/fan.go:657-664 | on a clock that never goes back, a hint whose registration is the latest command for its source is active if and only if no clean-up followed or the last one found it unexpired |
| Store.OverrideWithinADay | internal/controller/fan.go:731-753 | an override that survives a clean-up was set at most a day before it |
| Store.BandKept | internal/controller/fan.go:737-764 | every stored override was clamped, so clamping again when deciding changes nothing |
| StoreRuns.StoreIsReplay | internal/controller/fan.go:303-314 | hints and override after any run are the replay of its commands and clean-ups |
| StoreRuns.HintsAreTheirLog | internal/controller/fan.go:657-729 | after any run the active hints are exactly what its log leaves standing |
| StoreRuns.DecisionsUseLiveEntries | internal/controller/fan.go:262-265 | a decision uses only hints and an override that were unexpired at the tick's clean-up or put in during the tick; such an unexpired override was set at most a day before |
| StoreRuns.OverrideLasts | internal/controller/fan.go:743-764 | over runs: until set or cleared again, an override of the speed asked for within the limits is in force exactly as long as no recording tick has cleaned up after its end, which is the duration asked for, or a day if that is none or more, after it was set |
| StoreRuns.HintLasts | internal/controller/fan.go:700-721 | over runs: until its source calls again, a hint of 45, 25 or 15 percent is active exactly as long as no recording tick has cleaned up after its expiry, if it has one |
| StoreRuns.LastCleanDecidesOverRuns | internal/controller/fan.go:657-664 | over runs whose clean-ups are in time order: a hint whose registration is the latest call about its source is active if and only if no clean-up followed or the last one found it unexpired |
| StoreRuns.HistoryIsRecorded | internal/controller/fan.go:303-314 | the histories after any run are its recorded samples, trimmed one by one |
| StoreRuns.HistoryOverRuns | internal/controller/fan.go:637-655 | on a clock that never goes back they are one filter over everything recorded, sorted and in lockstep |
| StoreRuns.RetentionIsKept | internal/controller/fan.go:303-314 | a recording tick adds its reading to both histories, keeps exactly what is younger than the configured retention, and nothing twice |
| History.TrimmingIsFiltering | internal/controller/fan.go:637-655 | trimming after every reading equals filtering the full log once by the latest cutoff |
| History.HistoriesInLockstep | internal/controller/fan.go:310-312 | whatever the clock does, both histories have the same length and instants |
| History.HistoriesSorted | internal/controller/fan.go:637-655 | both histories are sorted by time |
| Control.CallsCommute | internal/controller/fan.go:66-70 | an API call landing during a retry, a reclaim, a sensor failure or a fan write has the same effect before or after it |
| FanControllers.FanController.constructor | internal/controller/fan.go:143-155 | a fresh controller |
| FanControllers.FanController.ControlLoop | internal/controller/fan.go:206-284 | one tick does what the transition system says and keeps its invariant |
| FanControllers.FanController.SenseAndRecord | internal/controller/fan.go:207-262 | the tick up to its decision |
| FanControllers.FanController.EnsureAutoRestored | internal/controller/fan.go:380-392 | retries a pending hand-back and nothing else |
| FanControllers.FanController.AttemptRestore | internal/controller/fan.go:394-402 | one hand-back, confirmed if acknowledged |
| FanControllers.FanController.EnterFailsafe | internal/controller/fan.go:352-378 | records the cause, never downgrades a write fail-safe, attempts a hand-back only when leaving control |
| FanControllers.FanController.HandleSensorFailure | internal/controller/fan.go:316-327 | counts a failed read and trips at the limit |
| FanControllers.FanController.HandleWriteFailure | internal/controller/fan.go:329-338 | counts a failed write and trips at the limit |
| FanControllers.FanController.ClearFailsafe | internal/controller/fan.go:404-416 | resets cause, confirmation and both counters |
| FanControllers.FanController.RecordReadings | internal/controller/fan.go:303-314 | appends, trims and cleans |
| FanControllers.FanController.Trimmed | internal/controller/fan.go:637-655 | the trimming loop keeps exactly the points after the cutoff, in order |
| FanControllers.FanController.CleanExpired | internal/controller/fan.go:657-669 | the deleting loop, in any order, leaves exactly the unexpired hints and override |
| FanControllers.FanController.HintMinSpeed | internal/controller/fan.go:521-527 | the loop over the map, in any order, computes the floor |
| FanControllers.FanController.RampUp | internal/controller/fan.go:554-570 | the over-threshold branch |
| FanControllers.FanController.CoolDown | internal/controller/fan.go:571-593 | the below-threshold branch |
| FanControllers.FanController.CalculateTarget | internal/controller/fan.go:476-605 | target, zone and cooldown clock are those of the speed law |
| FanControllers.FanController.SetFanSpeed | internal/controller/fan.go:671-690 | the current speed changes only on an acknowledged write |
| FanControllers.FanController.AddHint | internal/controller/fan.go:700-721 | registers the hint with the floor of its intensity |
| FanControllers.FanController.SetOverride | internal/controller/fan.go:743-764 | clamps the speed and caps the duration |
| FanControllers.FanController.Run | internal/controller/fan.go:173-197 | manual mode, an immediate tick, then a tick for every time the ticker wins the select, with API calls in between, until the stop channel wins: the state is that of the run semantics, and it returns if and only if stopped |
| FanControllers.FanController.GetStatus | internal/controller/fan.go:774-816 | every field as it is in the state, the two trends those of the histories; in a consistent state a confirmed fail-safe is reported only with the BMC in auto |
| FanControllers.FanController.CalculateTrend | internal/controller/fan.go:607-635 | the change over the last minute's points per minute, zero if they are fewer than two or span less than a tenth of a minute |
| FanControllers.FanController.ActiveHints | internal/controller/fan.go:779-782 | the loop over the map, in any order, lists the hint of every source once |
| Discovery.OncePerConnection | internal/mqtt/state.go:142-224 | after any run an index is marked if and only if this connection has a clean announcement of it, and no connection sees an announcement of an index it already has cleanly |
| Discovery.PublishAnnounces | internal/mqtt/state.go:108-224 | behind a failed state publish or without a reading wire and map stay; otherwise every present unmarked device is announced with the broker's answers, nothing else is, and an index is marked if and only if it was or all answers to one of its announcements were good |
| Discovery.MarkedIsSilent | internal/mqtt/state.go:152-183 | a marked index is not announced again before a reconnect |
| DiscoveryRace.StaleMarkExactlyWhen | internal/mqtt/state.go:164-182 | over every interleaving: a marked index lacks an acknowledged config on the present connection if and only if a connection came up after the first config of the announcement that marked it; with no reset outstanding, before the mark |
| DiscoveryRace.ReconnectLeavesAStaleMark | internal/mqtt/state.go:193-224 | a run of a three-config device that ends so, and whose index is then skipped |
| DiscoveryRace.AnnouncedAgainExactlyWhen | internal/mqtt/bridge.go:179-202 | over every interleaving: on the connection an index was last marked on, it is announced once more if and only if a reset outstanding at the mark has run since |
| DiscoveryRace.LateResetAnnouncesTwice | internal/mqtt/bridge.go:179-202 | a run in which that happens |
| DiscoveryRace.UndisturbedIsAtomic | internal/mqtt/state.go:193-224 | an uninterrupted announcement does to the map and the wire what the atomic protocol says |
| Discovery.Bridge.PublishNewGPUDiscovery | internal/mqtt/state.go:193-224 | the GPU loop announces every present unmarked device and marks the clean ones, as one pass of the protocol |
| Discovery.Bridge.PublishNewCPUDiscovery | internal/mqtt/state.go:152-183 | the CPU loop announces every unmarked position with its answers and marks it if and only if they are all good |
| Discovery.Bridge.PublishSpecs | internal/mqtt/state.go:204-217 | a device counts as published exactly when all its configs succeeded |
| Discovery.Bridge.PublishState | internal/mqtt/state.go:108-140 | both loops behind a successful state publish, nothing behind a failed one |
| Discovery.Bridge.OnConnect | internal/mqtt/bridge.go:179-202 | a connection forgets both discovered maps |
| Broker.NormalizeBrokerURL | internal/mqtt/broker.go:34-77 | the step-by-step method computes the address and the list of changes of the specification |
| Broker.RoundTrip | internal/mqtt/broker.go:90-153 | printing canonical scheme, well-formed host and port and splitting again recovers all three |
| Broker.SchemeRecovered | internal/mqtt/broker.go:88-95 | the first "://" is found after any colon-free scheme |
| Broker.AuthorityRecovered | internal/mqtt/broker.go:128-153 | a plain host with a colon-free port, and a bracketed host with any non-empty port, are recovered |
| Broker.SilentExactlyWhenCanonical | internal/mqtt/broker.go:15-21 | no changes are noted if and only if the address is canonical |
| Broker.FixedPointsExactly | internal/mqtt/broker.go:34-77 | an address is its own normal form if and only if it is canonical or not understood |
| Broker.IdempotentExactlyWhen | internal/mqtt/broker.go:34-77 | a second pass changes nothing if and only if the first left the address alone, or the port it read ends in neither space nor slash and no wrapped IPv6 literal has a stray bracket |
| Broker.TwoSlashesAreUnsafe | internal/mqtt/broker.go:34-77 | a canonical address with two more slashes is changed by a second pass |
| Broker.StrayBracketIsUnsafe | internal/mqtt/broker.go:128-153 | so is a bare IPv6 literal with a closing bracket in it that no colon follows |
| Broker.UnsafeAddresses | internal/mqtt/broker.go:34-77 | in particular `tcp://h:1883//` and `a]b::c` |
| Broker.WellFormedIsCanonicalised | internal/mqtt/broker.go:97-122 | every accepted spelling of a scheme with a well-formed host and port becomes the canonical form with the same host and port |
| Broker.NormalizedByTheTable | internal/mqtt/broker.go:97-122 | in any letter case mqtts, tls and ssl become ssl, mqtt, http, https and tcp become tcp, ws and wss stay; host and port are kept; the note is the one for that scheme |
| Broker.PortByTheTable | internal/mqtt/broker.go:67-73 | without a port, 8883 for those that become ssl and 1883 for the others, and a note of it |
| Broker.NoSchemeMeansTcp | internal/mqtt/broker.go:97-100 | host and port without a scheme become a tcp address |
| Broker.BareHostMeansTcp | internal/mqtt/broker.go:67-73 | a host alone becomes a tcp address at port 1883 |
| Broker.LiteralIsWrapped | internal/mqtt/broker.go:145-148 | a bare IPv6 literal is wrapped in brackets and gets port 1883 |
| Broker.UnknownSchemeIsLeftAlone | internal/mqtt/broker.go:119-121 | an address under any other scheme is returned as given, with that reason |
| Broker.NoHostIsLeftAlone | internal/mqtt/broker.go:60-63 | so is one without a host or with an unclosed bracket |
| Broker.BlankIsEmpty | internal/mqtt/broker.go:40-42 | and one of blanks only |
| Broker.SurroundingsAreDropped | internal/mqtt/broker.go:34-46 | blanks around an address and one slash at its end change nothing but the notes |
| Shutdown.RestoreOnce.Call | cmd/controller/main.go:134-145 | only the first call asks the BMC; later calls return its result |
| Shutdown.RestoreOnce.CallAll | cmd/controller/main.go:134-145 | any number of callers get the first result from one command |
| Shutdown.RestoredExactlyOnce | cmd/controller/main.go:117-145 | in every interleaving the restore starts at most once, has returned before the process exits, main and the panic handler act on its one result, and the loop does not end before the stop or the restore |
| Shutdown.ShutdownNeverStuck | cmd/controller/main.go:117-130 | a panic, a failing API server, a signal and a received error make the exit due; then an enabled step always brings it closer, no step of any goroutine pushes it away, and it stays due |
| TickCommands.TickSendsScript | internal/controller/fan.go:206-284 | a tick sends the retry, the hand-back or reclaim, the fan write and the last hand-back that its fail-safe state and answers call for, in that order, and nothing else |
| TickCommands.WindowMode | internal/controller/fan.go:206-284 | any stretch of a tick's commands, sent to a BMC in auto, leaves it in manual if and only if it includes the acknowledged reclaim and not the acknowledged hand-back two commands later; for a whole tick, if and only if it reclaims and does not hand back again |
| TickCommands.LawfulTailMode | internal/controller/fan.go:357-416 | the tail of any lawful log, sent to a BMC in auto, leaves it there if and only if it acknowledges no manual mode or the log ends handed back |
| Shutdown.LoopLogIsLawful | internal/controller/fan.go:206-284 | in the middle of a tick, and after a panic there, the commands sent obey the discipline |
| Shutdown.ModeAtExit | cmd/controller/main.go:320-326 | at exit after an acknowledged restore the BMC is in auto if and only if the loop got no manual mode acknowledged since or its own log ends handed back |
| Shutdown.PanicPathEndsInAuto | cmd/controller/main.go:117-130 | in every interleaving, an acknowledged restore run by the panic handler leaves the BMC in auto, then and at exit |
| Shutdown.PanicRunsToExit | cmd/controller/main.go:117-145 | a panic anywhere in the loop, in the middle of a tick as well, can run through restore and report to the exit, with one command to the BMC and the handler's result |
| Shutdown.TickInFlightDecides | internal/controller/fan.go:189-258 | a tick in flight, or begun, when the BMC is back in auto: its next n commands leave it in manual if and only if an acknowledged reclaim is among them and not the hand-back after it |
| Shutdown.StopIsSafeExactlyWhen | cmd/controller/main.go:311-326 | when main stops the controller, an acknowledged restore leaves the BMC in auto at exit in every continuation if and only if the loop is over, in the write fail-safe, or in a tick whose refused write enters it with no acknowledged reclaim still to send; the tick in flight gets the answers of its input |
| Shutdown.QuietStopEndsInAuto | internal/controller/fan.go:189-204 | if no tick is in flight at the stop and none begins later, an acknowledged restore ends in auto |
| Shutdown.NothingAfterwardsAtStop | cmd/controller/main.go:311-320 | at the moment of the stop nothing has been sent after a restore |
| Shutdown.InFlightReclaimEndsInManual | cmd/controller/main.go:320-326 | for every configuration, a run in which a tick that follows a confirmed sensor fail-safe is in flight at the signal, reclaims manual mode after the restore, and the process exits with the BMC in manual |

## Left out

- SpeedRuns.HotterRunNeverSlower: starts at or above the base speed, as does `HotterRunsExactlyWhen`; below it a single decision can reverse the order (`SpeedLaw.MonotoneExactlyWhen`), and `BaseNeverLost` says a run that has reached it stays there.
- Discovery.OncePerConnection: announcements and resets are atomic here; what reconnects in between do is in `DiscoveryRace`.
- FanControllers.FanController.GetStatus: between an acknowledged reclaim and the clearing of the fail-safe, inside a tick, a reader on another goroutine can see a confirmed fail-safe with the BMC already in manual; the contract is stated for consistent states, which every tick boundary is.
- FanControllers.FanController.CalculateTrend: over the reals; the rounding of the division is not modelled.
- FanControllers.FanController.CalculateTarget: integers are unbounded; wrap-around of 64-bit speeds and saturation of durations are not modelled.
- FanControllers.FanController.Run: takes the finite order in which ticker, API calls and stop channel are served; every order of these against shutdown is in `Shutdown`.
- Broker.NormalizeBrokerURL: notes are a list of reasons; their wording and quoting are not modelled.
- Running ipmitool and nvidia-smi, their timeouts and the parsing of their output: a read either fails or yields two maxima, of any value.
- The MQTT part of Validate, which rests on the standard library's URL parser, and YAML loading.
- Fields that never feed a decision: device lists, reading details, hint type and action.
- The SQLite store, the HTTP server, authentication and the dashboard.
- The paho client, JSON payloads, availability, aggregate discovery and command subscriptions.
- Rate limiting, the one-time broker hint and retained-command dropping: one-branch facts.
- The MQTT and history-clean-up teardown after the restore: bounded waits with no effect on the BMC.
- The demo-mode controller and monitors.
