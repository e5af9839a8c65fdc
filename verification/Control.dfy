/**
 The controller as a transition system: one function for each step of the control loop, a tick
 that composes them, and runs over any interleaving of ticks and API calls.
 */
module Control {
  import opened Basics
  import opened Bmc
  import Config
  import History
  import SpeedLaw
  import Store

  datatype Cause = NoFailsafe | SensorLoss | WriteFailure

  datatype Failsafe = Failsafe(cause: Cause, restoreConfirmed: bool, sensorFails: nat, writeFails: nat) {
    predicate Active() { !cause.NoFailsafe? }
    predicate RestorePending() { Active() && !restoreConfirmed }
  }

  datatype State = State(
    fs: Failsafe,
    drive: SpeedLaw.Drive,
    lastWriteFailed: bool,
    store: Store.Store,
    lastReading: Option<Reading>,
    history: History.History,
    bmc: Bmc)

  /** The clock readings of one tick, in the order the loop makes them. */
  datatype Clock = Clock(reading: Time, trim: Time, clean: Time, decide: Time)

  /** Everything a tick meets: the sensors, the clock, the answer to each command it may send, and the
      API calls that land between its recording of the reading and its decision. */
  datatype Input = Input(
    read: Option<Reading>,
    clock: Clock,
    retryOk: bool,
    reclaimOk: bool,
    writeOk: bool,
    handBackOk: bool,
    between: seq<Store.Command>)

  datatype Event = Tick(input: Input) | Call(command: Store.Command)

  // ----- The steps of a tick -----

  function AttemptRestore(s: State, ok: bool): State {
    s.(bmc := s.bmc.Execute(RestoreAuto, ok),
       fs := s.fs.(restoreConfirmed := s.fs.restoreConfirmed || ok))
  }

  /** Retry a hand-back that has not been acknowledged. */
  function Retry(s: State, ok: bool): State {
    if s.fs.RestorePending() then AttemptRestore(s, ok) else s
  }

  /** A write fail-safe is never downgraded; only the move out of active control attempts a hand-back. */
  function EnterFailsafe(s: State, cause: Cause, ok: bool): State {
    if s.fs.cause.WriteFailure? then s
    else
      var marked := s.(fs := s.fs.(cause := cause));
      if s.fs.Active() then marked else AttemptRestore(marked, ok)
  }

  function SensorFailure(cfg: Config.Config, s: State, ok: bool): State {
    var counted := s.(fs := s.fs.(sensorFails := s.fs.sensorFails + 1));
    if counted.fs.sensorFails >= cfg.fan.SensorLimit() then EnterFailsafe(counted, SensorLoss, ok) else counted
  }

  function WriteFailed(cfg: Config.Config, s: State, ok: bool): State {
    var counted := s.(fs := s.fs.(writeFails := s.fs.writeFails + 1));
    if counted.fs.writeFails >= cfg.fan.WriteLimit() then EnterFailsafe(counted, WriteFailure, ok) else counted
  }

  const Cleared := Failsafe(NoFailsafe, false, 0, 0)

  function SampleOf(cfg: Config.Config, r: Reading, clock: Clock): History.Sample {
    History.Sample(r, clock.reading, clock.trim - cfg.historyRetention * SECOND)
  }

  function Record(cfg: Config.Config, s: State, r: Reading, clock: Clock): State {
    s.(lastReading := Some(r),
       history := History.Record(s.history, SampleOf(cfg, r, clock)),
       store := Store.Clean(s.store, clock.clean))
  }

  /** The tick up to its decision; `decides` is the reading it will act on, if it gets that far. */
  datatype Sensed = Sensed(state: State, decides: Option<Reading>)

  function Sense(cfg: Config.Config, s0: State, i: Input): Sensed {
    var s := Retry(s0, i.retryOk);
    if s.fs.cause.WriteFailure? then
      Sensed(if i.read.Some? then Record(cfg, s, i.read.value, i.clock) else s, None)
    else if i.read.None? then
      Sensed(SensorFailure(cfg, s, i.handBackOk), None)
    else
      Healthy(cfg, s.(fs := s.fs.(sensorFails := 0)), i.read.value, i)
  }

  /** Both sensors answered and the fail-safe, if any, is recoverable. */
  function Healthy(cfg: Config.Config, s: State, r: Reading, i: Input): Sensed {
    if !s.fs.cause.SensorLoss? then Sensed(Record(cfg, s, r, i.clock), Some(r))
    else if !s.fs.restoreConfirmed then Sensed(Record(cfg, s, r, i.clock), None)
    else
      var asked := Reclaim(s, i.reclaimOk);
      if !i.reclaimOk then Sensed(asked, None) else Sensed(Record(cfg, asked, r, i.clock), Some(r))
  }

  /** Ask for manual mode again; an acknowledgement ends the fail-safe. */
  function Reclaim(s: State, ok: bool): State {
    s.(bmc := s.bmc.Execute(EnableManual, ok), fs := if ok then Cleared else s.fs)
  }

  function SetFanSpeed(s: State, speed: int, ok: bool): State {
    s.(bmc := s.bmc.Execute(SetFan(speed), ok),
       lastWriteFailed := !ok,
       drive := if ok then s.drive.(current := speed) else s.drive)
  }

  function Write(cfg: Config.Config, s: State, speed: int, ok: bool, handBackOk: bool): State {
    var written := SetFanSpeed(s, speed, ok);
    if ok then written.(fs := written.fs.(writeFails := 0)) else WriteFailed(cfg, written, handBackOk)
  }

  ghost function Decide(cfg: Config.Config, s: State, r: Reading, now: Time): State {
    s.(drive := SpeedLaw.Decide(cfg.fan, s.drive, Store.Floor(s.store.hints), s.store.override, r, now))
  }

  ghost function Act(cfg: Config.Config, s: State, r: Reading, i: Input): State {
    var decided := Decide(cfg, s, r, i.clock.decide);
    Write(cfg, decided, decided.drive.target, i.writeOk, i.handBackOk)
  }

  function CallAll(cfg: Config.Config, s: State, cs: seq<Store.Command>): State {
    s.(store := Store.ApplyAll(cfg.fan, s.store, cs))
  }

  ghost function TickStep(cfg: Config.Config, s: State, i: Input): State {
    var sensed := Sense(cfg, s, i);
    var called := CallAll(cfg, sensed.state, i.between);
    if sensed.decides.Some? then Act(cfg, called, sensed.decides.value, i) else called
  }

  function CallStep(cfg: Config.Config, s: State, c: Store.Command): State {
    s.(store := Store.Apply(cfg.fan, s.store, c))
  }

  ghost function Step(cfg: Config.Config, s: State, e: Event): State {
    match e
    case Tick(i) => TickStep(cfg, s, i)
    case Call(c) => CallStep(cfg, s, c)
  }

  ghost function Run(cfg: Config.Config, s: State, es: seq<Event>): State {
    if es == [] then s else Step(cfg, Run(cfg, s, es[..|es| - 1]), es[|es| - 1])
  }

  /** A fresh controller facing a BMC in `mode`. */
  function Fresh(mode: Mode): State {
    State(Cleared, SpeedLaw.AtRest, false, Store.Empty, None, History.NoHistory, Bmc(mode, []))
  }

  /** Run asks for manual mode once before its first tick, and goes on if that fails. */
  function Boot(mode: Mode, enabled: bool): State {
    var s := Fresh(mode);
    s.(bmc := s.bmc.Execute(EnableManual, enabled))
  }

  lemma RunSnoc(cfg: Config.Config, s: State, es: seq<Event>, e: Event)
    ensures Run(cfg, s, es + [e]) == Step(cfg, Run(cfg, s, es), e)
  {
    assert (es + [e])[..|es|] == es;
  }

  lemma {:induction false} RunConcat(cfg: Config.Config, s: State, a: seq<Event>, b: seq<Event>)
    ensures Run(cfg, s, a + b) == Run(cfg, Run(cfg, s, a), b)
    decreases |b|
  {
    hide Step;
    if b == [] {
      assert a + b == a;
    } else {
      RunConcat(cfg, s, a, b[..|b| - 1]);
      assert a + b == (a + b[..|b| - 1]) + [b[|b| - 1]];
      RunSnoc(cfg, s, a + b[..|b| - 1], b[|b| - 1]);
    }
  }

  function Ticks(es: seq<Event>): nat {
    if es == [] then 0 else Ticks(es[..|es| - 1]) + if es[|es| - 1].Tick? then 1 else 0
  }

  /** What a tick does to the drive: nothing, or one decision whose speed counts if acknowledged. */
  lemma TickDrive(cfg: Config.Config, s: State, i: Input)
    ensures var sensed, s' := Sense(cfg, s, i), TickStep(cfg, s, i);
      && sensed.state.drive == s.drive
      && s'.store == CallAll(cfg, sensed.state, i.between).store
      && (sensed.decides.Some? ==> i.read == sensed.decides)
      && s'.drive ==
           if sensed.decides.None? then s.drive
           else
             var st := CallAll(cfg, sensed.state, i.between).store;
             var d := SpeedLaw.Decide(cfg.fan, s.drive, Store.Floor(st.hints), st.override, sensed.decides.value, i.clock.decide);
             if i.writeOk then d.(current := d.target) else d
  {
    hide SpeedLaw.Decide;
  }

  // ----- Why these interleavings are enough -----

  lemma CallCommutesWithFailure(cfg: Config.Config, s: State, c: Store.Command, ok: bool)
    ensures CallStep(cfg, SensorFailure(cfg, s, ok), c) == SensorFailure(cfg, CallStep(cfg, s, c), ok)
  {
    hide Store.Apply;
  }

  lemma CallCommutesWithWrite(cfg: Config.Config, s: State, c: Store.Command, speed: int, ok: bool, handBackOk: bool)
    ensures CallStep(cfg, Write(cfg, s, speed, ok, handBackOk), c) == Write(cfg, CallStep(cfg, s, c), speed, ok, handBackOk)
  {
    hide Store.Apply;
  }

  /** A call that lands anywhere outside the two lock regions that touch hints or override (recording,
      deciding) has the same effect as one that lands right before or right after. */
  lemma CallsCommute(cfg: Config.Config, s: State, c: Store.Command, i: Input, speed: int)
    ensures CallStep(cfg, Retry(s, i.retryOk), c) == Retry(CallStep(cfg, s, c), i.retryOk)
    ensures CallStep(cfg, Reclaim(s, i.reclaimOk), c) == Reclaim(CallStep(cfg, s, c), i.reclaimOk)
    ensures CallStep(cfg, SensorFailure(cfg, s, i.handBackOk), c) == SensorFailure(cfg, CallStep(cfg, s, c), i.handBackOk)
    ensures CallStep(cfg, Write(cfg, s, speed, i.writeOk, i.handBackOk), c)
         == Write(cfg, CallStep(cfg, s, c), speed, i.writeOk, i.handBackOk)
  {
    hide Store.Apply, SensorFailure, Write;
    CallCommutesWithFailure(cfg, s, c, i.handBackOk);
    CallCommutesWithWrite(cfg, s, c, speed, i.writeOk, i.handBackOk);
  }
}
