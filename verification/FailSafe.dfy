/** Whole-run properties of the fail-safe protocol. */
module FailSafe {
  import opened Basics
  import opened Bmc
  import opened Control
  import opened Protocol
  import Config
  import History
  import SpeedLaw
  import Store

  // ----- What the command log says about the controller's fields -----

  /** Failed fan writes since the last acknowledged write or reclaim. */
  function WriteStreak(log: seq<Attempt>): nat {
    if log == [] then 0
    else
      var a := log[|log| - 1];
      match a.command
      case SetFan(_) => if a.ok then 0 else WriteStreak(log[..|log| - 1]) + 1
      case EnableManual => if a.ok then 0 else WriteStreak(log[..|log| - 1])
      case RestoreAuto => WriteStreak(log[..|log| - 1])
  }

  /** The speed of the last acknowledged fan write; 0 before the first. */
  function LastWritten(log: seq<Attempt>): int {
    if log == [] then 0
    else
      var a := log[|log| - 1];
      if a.command.SetFan? && a.ok then a.command.speed else LastWritten(log[..|log| - 1])
  }

  /** Was the last fan write refused? */
  predicate LastWriteRefused(log: seq<Attempt>) {
    if log == [] then false
    else
      var a := log[|log| - 1];
      if a.command.SetFan? then !a.ok else LastWriteRefused(log[..|log| - 1])
  }

  /** The phase of the command discipline that the controller's fields stand for. */
  function View(fs: Failsafe): Phase {
    if fs.cause.NoFailsafe? then Controlling(fs.writeFails)
    else if fs.restoreConfirmed then HandedBack(fs.cause.WriteFailure?)
    else Pending(fs.cause.WriteFailure?)
  }

  ghost predicate CountersFit(cfg: Config.Config, fs: Failsafe) {
    && (fs.cause.NoFailsafe? ==>
          !fs.restoreConfirmed && fs.sensorFails < cfg.fan.SensorLimit() && fs.writeFails < cfg.fan.WriteLimit())
    && (fs.cause.SensorLoss? ==> fs.writeFails < cfg.fan.WriteLimit())
    && (fs.cause.WriteFailure? ==> fs.writeFails == cfg.fan.WriteLimit() && fs.sensorFails == 0)
  }

  ghost predicate Inv(cfg: Config.Config, s: State) {
    && PhaseOf(cfg.fan.WriteLimit(), s.bmc.log) == View(s.fs)
    && CountersFit(cfg, s.fs)
    && (s.fs.restoreConfirmed ==> s.bmc.mode == Auto)
    && s.fs.writeFails == WriteStreak(s.bmc.log)
    && s.drive.current == LastWritten(s.bmc.log)
    && s.lastWriteFailed == LastWriteRefused(s.bmc.log)
    && s.bmc.log != []
  }

  lemma Logged(limit: nat, log: seq<Attempt>, a: Attempt)
    ensures PhaseOf(limit, log + [a]) == Advance(limit, PhaseOf(limit, log), a)
    ensures Reclaims(log + [a]) == Reclaims(log) + if log != [] && a.AcceptedEnable() then 1 else 0
    ensures WriteStreak(log + [a]) ==
      if a.command.SetFan? && !a.ok then WriteStreak(log) + 1
      else if a.ok && !a.command.RestoreAuto? then 0
      else WriteStreak(log)
    ensures LastWritten(log + [a]) == if a.command.SetFan? && a.ok then a.command.speed else LastWritten(log)
    ensures LastWriteRefused(log + [a]) == if a.command.SetFan? then !a.ok else LastWriteRefused(log)
  {
    assert (log + [a])[..|log|] == log;
  }

  lemma InvRetry(cfg: Config.Config, s: State, ok: bool)
    requires Inv(cfg, s)
    ensures Inv(cfg, Retry(s, ok))
  {
    Logged(cfg.fan.WriteLimit(), s.bmc.log, Attempt(RestoreAuto, ok));
  }

  lemma InvSensorFailure(cfg: Config.Config, s: State, ok: bool)
    requires Inv(cfg, s) && !s.fs.cause.WriteFailure?
    ensures Inv(cfg, SensorFailure(cfg, s, ok))
  {
    Logged(cfg.fan.WriteLimit(), s.bmc.log, Attempt(RestoreAuto, ok));
  }

  lemma InvHealthy(cfg: Config.Config, s: State, r: Reading, i: Input)
    requires Inv(cfg, s) && !s.fs.cause.WriteFailure?
    ensures Inv(cfg, Healthy(cfg, s, r, i).state)
    ensures Healthy(cfg, s, r, i).decides.Some? ==> Healthy(cfg, s, r, i).state.fs.cause.NoFailsafe?
  {
    Logged(cfg.fan.WriteLimit(), s.bmc.log, Attempt(EnableManual, i.reclaimOk));
  }

  lemma InvWrite(cfg: Config.Config, s: State, speed: int, ok: bool, handBackOk: bool)
    requires Inv(cfg, s) && s.fs.cause.NoFailsafe? && s.fs.sensorFails == 0
    ensures Inv(cfg, Write(cfg, s, speed, ok, handBackOk))
  {
    var write := Attempt(SetFan(speed), ok);
    Logged(cfg.fan.WriteLimit(), s.bmc.log, write);
    Logged(cfg.fan.WriteLimit(), s.bmc.log + [write], Attempt(RestoreAuto, handBackOk));
  }

  lemma InvSense(cfg: Config.Config, s: State, i: Input)
    requires Inv(cfg, s)
    ensures Inv(cfg, Sense(cfg, s, i).state)
    ensures Sense(cfg, s, i).decides.Some? ==>
      && Sense(cfg, s, i).state.fs.cause.NoFailsafe?
      && Sense(cfg, s, i).state.fs.sensorFails == 0
      && i.read == Sense(cfg, s, i).decides
  {
    var s1 := Retry(s, i.retryOk);
    InvRetry(cfg, s, i.retryOk);
    if !s1.fs.cause.WriteFailure? {
      if i.read.None? {
        InvSensorFailure(cfg, s1, i.handBackOk);
      } else {
        InvHealthy(cfg, s1.(fs := s1.fs.(sensorFails := 0)), i.read.value, i);
      }
    }
  }

  lemma InvStep(cfg: Config.Config, s: State, e: Event)
    requires Inv(cfg, s)
    ensures Inv(cfg, Step(cfg, s, e))
  {
    if e.Tick? {
      var i := e.input;
      InvSense(cfg, s, i);
      var sensed := Sense(cfg, s, i);
      if sensed.decides.Some? {
        var decided := Decide(cfg, CallAll(cfg, sensed.state, i.between), sensed.decides.value, i.clock.decide);
        InvWrite(cfg, decided, decided.drive.target, i.writeOk, i.handBackOk);
      }
    }
  }

  lemma {:induction false} InvRun(cfg: Config.Config, s: State, es: seq<Event>)
    requires Inv(cfg, s)
    ensures Inv(cfg, Run(cfg, s, es))
    decreases |es|
  {
    if es != [] {
      InvRun(cfg, s, es[..|es| - 1]);
      InvStep(cfg, Run(cfg, s, es[..|es| - 1]), es[|es| - 1]);
    }
  }

  lemma InvBoot(cfg: Config.Config, mode: Mode, enabled: bool)
    ensures Inv(cfg, Boot(mode, enabled))
  {
    Logged(cfg.fan.WriteLimit(), [], Attempt(EnableManual, enabled));
  }

  // ----- Refinement of the command discipline, and what follows from it -----

  ghost function Reached(cfg: Config.Config, mode: Mode, enabled: bool, es: seq<Event>): State {
    Run(cfg, Boot(mode, enabled), es)
  }

  lemma ReachedInv(cfg: Config.Config, mode: Mode, enabled: bool, es: seq<Event>)
    ensures Inv(cfg, Reached(cfg, mode, enabled, es))
  {
    InvBoot(cfg, mode, enabled);
    InvRun(cfg, Boot(mode, enabled), es);
  }

  /** Whatever sensors, BMC, clock and API clients do, the commands sent so far obey the discipline and
      leave it in exactly the phase the controller believes in. */
  lemma RunsObeyProtocol(cfg: Config.Config, mode: Mode, enabled: bool, es: seq<Event>)
    ensures var s := Reached(cfg, mode, enabled, es);
            PhaseOf(cfg.fan.WriteLimit(), s.bmc.log) == View(s.fs) != Breach
  {
    ReachedInv(cfg, mode, enabled, es);
  }

  /** Acknowledged hand-backs exceed acknowledged reclaims by one while a hand-back is confirmed, by none otherwise. */
  lemma HandBacksConserved(cfg: Config.Config, mode: Mode, enabled: bool, es: seq<Event>)
    ensures var s := Reached(cfg, mode, enabled, es);
            Restores(s.bmc.log) - Reclaims(s.bmc.log) == if s.fs.restoreConfirmed then 1 else 0
  {
    ReachedInv(cfg, mode, enabled, es);
    ModeCommandsConserved(cfg.fan.WriteLimit(), Reached(cfg, mode, enabled, es).bmc.log);
  }

  /** A reported fail-safe that is not pending means the BMC really is in automatic mode. */
  lemma ConfirmedMeansAuto(cfg: Config.Config, mode: Mode, enabled: bool, es: seq<Event>)
    ensures var s := Reached(cfg, mode, enabled, es);
            s.fs.Active() && !s.fs.RestorePending() ==> s.bmc.mode == Auto
  {
    ReachedInv(cfg, mode, enabled, es);
  }

  // ----- No flapping -----

  /** Progress towards the next possible reclaim. */
  function Potential(cfg: Config.Config, fs: Failsafe): nat {
    match fs.cause
    case NoFailsafe => fs.sensorFails
    case SensorLoss => cfg.fan.SensorLimit()
    case WriteFailure => 0
  }

  /** What n reclaims cost, in ticks. */
  function Price(n: nat, limit: nat): nat {
    n * (limit + 1)
  }

  lemma OneMoreReclaim(n: nat, limit: nat)
    ensures Price(n + 1, limit) == Price(n, limit) + limit + 1
  {
  }

  function Cost(cfg: Config.Config, s: State): int {
    Price(Reclaims(s.bmc.log), cfg.fan.SensorLimit()) + Potential(cfg, s.fs)
  }

  lemma CostRetry(cfg: Config.Config, s: State, ok: bool)
    ensures Cost(cfg, Retry(s, ok)) == Cost(cfg, s)
  {
    Logged(cfg.fan.WriteLimit(), s.bmc.log, Attempt(RestoreAuto, ok));
  }

  lemma CostSensorFailure(cfg: Config.Config, s: State, ok: bool)
    requires Inv(cfg, s) && !s.fs.cause.WriteFailure?
    ensures Cost(cfg, SensorFailure(cfg, s, ok)) <= Cost(cfg, s) + 1
  {
    Logged(cfg.fan.WriteLimit(), s.bmc.log, Attempt(RestoreAuto, ok));
    assert Reclaims(SensorFailure(cfg, s, ok).bmc.log) == Reclaims(s.bmc.log);
  }

  lemma CostHealthy(cfg: Config.Config, s: State, r: Reading, i: Input)
    requires Inv(cfg, s)
    ensures Cost(cfg, Healthy(cfg, s, r, i).state) <= Cost(cfg, s) + 1
  {
    hide PhaseOf, WriteStreak, LastWritten, LastWriteRefused, Reclaims, Price;
    Logged(cfg.fan.WriteLimit(), s.bmc.log, Attempt(EnableManual, i.reclaimOk));
    OneMoreReclaim(Reclaims(s.bmc.log), cfg.fan.SensorLimit());
  }

  lemma CostSense(cfg: Config.Config, s: State, i: Input)
    requires Inv(cfg, s)
    ensures Cost(cfg, Sense(cfg, s, i).state) <= Cost(cfg, s) + 1
  {
    var s1 := Retry(s, i.retryOk);
    InvRetry(cfg, s, i.retryOk);
    CostRetry(cfg, s, i.retryOk);
    if !s1.fs.cause.WriteFailure? {
      if i.read.None? {
        CostSensorFailure(cfg, s1, i.handBackOk);
      } else {
        CostHealthy(cfg, s1.(fs := s1.fs.(sensorFails := 0)), i.read.value, i);
      }
    }
  }

  lemma CostWrite(cfg: Config.Config, s: State, speed: int, ok: bool, handBackOk: bool)
    requires Inv(cfg, s) && s.fs.cause.NoFailsafe?
    ensures Cost(cfg, Write(cfg, s, speed, ok, handBackOk)) <= Cost(cfg, s)
  {
    var write := Attempt(SetFan(speed), ok);
    Logged(cfg.fan.WriteLimit(), s.bmc.log, write);
    Logged(cfg.fan.WriteLimit(), s.bmc.log + [write], Attempt(RestoreAuto, handBackOk));
  }

  lemma CostStep(cfg: Config.Config, s: State, e: Event)
    requires Inv(cfg, s)
    ensures Cost(cfg, Step(cfg, s, e)) <= Cost(cfg, s) + if e.Tick? then 1 else 0
  {
    if e.Tick? {
      var i := e.input;
      CostSense(cfg, s, i);
      InvSense(cfg, s, i);
      var sensed := Sense(cfg, s, i);
      if sensed.decides.Some? {
        var decided := Decide(cfg, CallAll(cfg, sensed.state, i.between), sensed.decides.value, i.clock.decide);
        CostWrite(cfg, decided, decided.drive.target, i.writeOk, i.handBackOk);
      }
    }
  }

  /** Amortised, from any state the controller can be in: each reclaim is paid for by limit + 1 ticks. */
  lemma {:induction false} ReclaimsArePaidFor(cfg: Config.Config, s: State, es: seq<Event>)
    requires Inv(cfg, s)
    ensures Cost(cfg, Run(cfg, s, es)) <= Cost(cfg, s) + Ticks(es)
    decreases |es|
  {
    if es != [] {
      var before := Run(cfg, s, es[..|es| - 1]);
      ReclaimsArePaidFor(cfg, s, es[..|es| - 1]);
      InvRun(cfg, s, es[..|es| - 1]);
      CostStep(cfg, before, es[|es| - 1]);
    }
  }

  lemma NoFlapping(cfg: Config.Config, mode: Mode, enabled: bool, es: seq<Event>)
    ensures Reclaims(Reached(cfg, mode, enabled, es).bmc.log) * (cfg.fan.SensorLimit() + 1) <= Ticks(es)
  {
    var s := Boot(mode, enabled);
    InvBoot(cfg, mode, enabled);
    assert Cost(cfg, s) == 0;
    hide Inv, Run, Boot, Reclaims, SpeedLaw.Decide;
    ReclaimsArePaidFor(cfg, s, es);
  }

  // The bound is exact: a BMC that accepts everything and sensors that fail in bursts reach it.

  const Blind: Event := Tick(Input(None, Clock(0, 0, 0, 0), true, true, true, true, []))
  const Healed: Event := Tick(Input(Some(Reading(0, 0)), Clock(0, 0, 0, 0), true, true, true, true, []))

  function Blinds(n: nat): seq<Event> {
    if n == 0 then [] else Blinds(n - 1) + [Blind]
  }

  function Bursts(limit: nat, m: nat): seq<Event> {
    if m == 0 then [] else Bursts(limit, m - 1) + (Blinds(limit) + [Healed])
  }

  lemma BlindTick(cfg: Config.Config, s: State, i: Input)
    requires Inv(cfg, s) && s.fs.cause.NoFailsafe? && i.read.None? && i.handBackOk && i.between == []
    ensures var s' := TickStep(cfg, s, i);
      && s'.fs.sensorFails == s.fs.sensorFails + 1 && Reclaims(s'.bmc.log) == Reclaims(s.bmc.log)
      && (if s.fs.sensorFails + 1 < cfg.fan.SensorLimit() then s'.fs.cause.NoFailsafe? && s'.bmc == s.bmc
          else s'.fs.cause.SensorLoss? && s'.fs.restoreConfirmed)
  {
    Logged(cfg.fan.WriteLimit(), s.bmc.log, Attempt(RestoreAuto, true));
  }

  lemma {:induction false} BlindRun(cfg: Config.Config, s: State, n: nat)
    requires Inv(cfg, s) && s.fs.cause.NoFailsafe? && s.fs.sensorFails == 0 && n <= cfg.fan.SensorLimit()
    ensures var s' := Run(cfg, s, Blinds(n));
      && s'.fs.sensorFails == n && Reclaims(s'.bmc.log) == Reclaims(s.bmc.log)
      && (if n < cfg.fan.SensorLimit() then s'.fs.cause.NoFailsafe? && s'.bmc == s.bmc
          else s'.fs.cause.SensorLoss? && s'.fs.restoreConfirmed)
  {
    if n > 0 {
      hide TickStep, Inv;
      BlindRun(cfg, s, n - 1);
      RunSnoc(cfg, s, Blinds(n - 1), Blind);
      InvRun(cfg, s, Blinds(n - 1));
      BlindTick(cfg, Run(cfg, s, Blinds(n - 1)), Blind.input);
    }
  }

  lemma BlindTickTrips(cfg: Config.Config, s: State)
    requires Inv(cfg, s) && !s.fs.cause.WriteFailure?
    ensures var s' := TickStep(cfg, s, Blind.input);
      && !s'.fs.cause.WriteFailure? && s'.fs.sensorFails == s.fs.sensorFails + 1
      && (s'.fs.cause.SensorLoss? ==> s'.fs.restoreConfirmed)
  {
    hide PhaseOf, WriteStreak, LastWritten, LastWriteRefused;
  }

  /** From anywhere outside the write fail-safe, enough failed reads end in a confirmed sensor fail-safe. */
  lemma {:induction false} BlindsEndHandedBack(cfg: Config.Config, s: State, n: nat)
    requires Inv(cfg, s) && !s.fs.cause.WriteFailure?
    ensures var s' := Run(cfg, s, Blinds(n));
      && Inv(cfg, s') && !s'.fs.cause.WriteFailure? && s'.fs.sensorFails == s.fs.sensorFails + n
      && (n > 0 && s'.fs.cause.SensorLoss? ==> s'.fs.restoreConfirmed)
      && (n >= cfg.fan.SensorLimit() ==> s'.fs.cause.SensorLoss? && s'.fs.restoreConfirmed)
  {
    if n > 0 {
      BlindsEndHandedBack(cfg, s, n - 1);
      RunSnoc(cfg, s, Blinds(n - 1), Blind);
      BlindTickTrips(cfg, Run(cfg, s, Blinds(n - 1)));
      InvStep(cfg, Run(cfg, s, Blinds(n - 1)), Blind);
      hide TickStep, PhaseOf, View, WriteStreak, LastWritten, LastWriteRefused;
    }
  }

  lemma ReclaimTick(cfg: Config.Config, s: State, i: Input)
    requires Inv(cfg, s) && s.fs.cause.SensorLoss? && s.fs.restoreConfirmed
    requires i.read.Some? && i.reclaimOk && i.writeOk
    ensures var s' := TickStep(cfg, s, i);
      s'.fs == Cleared && Reclaims(s'.bmc.log) == Reclaims(s.bmc.log) + 1
  {
    var limit, reclaim := cfg.fan.WriteLimit(), Attempt(EnableManual, true);
    var decided := Decide(cfg, CallAll(cfg, Sense(cfg, s, i).state, i.between), i.read.value, i.clock.decide);
    assert decided.bmc.log == s.bmc.log + [reclaim];
    Logged(limit, s.bmc.log, reclaim);
    Logged(limit, decided.bmc.log, Attempt(SetFan(decided.drive.target), true));
  }

  lemma BurstReclaims(cfg: Config.Config, s: State)
    requires Inv(cfg, s) && s.fs.cause.NoFailsafe? && s.fs.sensorFails == 0
    ensures var s' := Run(cfg, s, Blinds(cfg.fan.SensorLimit()) + [Healed]);
      s'.fs == Cleared && Reclaims(s'.bmc.log) == Reclaims(s.bmc.log) + 1
  {
    var blinds := Blinds(cfg.fan.SensorLimit());
    BlindRun(cfg, s, cfg.fan.SensorLimit());
    InvRun(cfg, s, blinds);
    RunSnoc(cfg, s, blinds, Healed);
    ReclaimTick(cfg, Run(cfg, s, blinds), Healed.input);
  }

  lemma {:induction false} TicksConcat(a: seq<Event>, b: seq<Event>)
    ensures Ticks(a + b) == Ticks(a) + Ticks(b)
    decreases |b|
  {
    if b == [] {
      assert a + b == a;
    } else {
      TicksConcat(a, b[..|b| - 1]);
      assert (a + b)[..|a + b| - 1] == a + b[..|b| - 1];
    }
  }

  lemma BurstTicks(limit: nat, m: nat)
    ensures Ticks(Bursts(limit, m)) == m * (limit + 1)
  {
    if m > 0 {
      BurstTicks(limit, m - 1);
      BlindTicks(limit);
      TicksConcat(Blinds(limit), [Healed]);
      TicksConcat(Bursts(limit, m - 1), Blinds(limit) + [Healed]);
      assert m * (limit + 1) == (m - 1) * (limit + 1) + (limit + 1);
    }
  }

  lemma BlindTicks(n: nat)
    ensures Ticks(Blinds(n)) == n
  {
    if n > 0 {
      BlindTicks(n - 1);
      assert Blinds(n)[..|Blinds(n)| - 1] == Blinds(n - 1);
    }
  }

  lemma OneMoreBurst(cfg: Config.Config, s: State, init: seq<Event>)
    requires Inv(cfg, s) && Run(cfg, s, init).fs == Cleared
    ensures var mid, s' := Run(cfg, s, init), Run(cfg, s, init + (Blinds(cfg.fan.SensorLimit()) + [Healed]));
            s'.fs == Cleared && Reclaims(s'.bmc.log) == Reclaims(mid.bmc.log) + 1
  {
    RunConcat(cfg, s, init, Blinds(cfg.fan.SensorLimit()) + [Healed]);
    InvRun(cfg, s, init);
    BurstReclaims(cfg, Run(cfg, s, init));
  }

  lemma {:induction false} BurstsReclaim(cfg: Config.Config, s: State, m: nat)
    requires Inv(cfg, s) && s.fs == Cleared
    ensures var s' := Run(cfg, s, Bursts(cfg.fan.SensorLimit(), m));
            s'.fs == Cleared && Reclaims(s'.bmc.log) == Reclaims(s.bmc.log) + m
  {
    hide Step, Inv;
    if m > 0 {
      BurstsReclaim(cfg, s, m - 1);
      OneMoreBurst(cfg, s, Bursts(cfg.fan.SensorLimit(), m - 1));
    }
  }

  /** For every m there is a run of m * (limit + 1) ticks with m reclaims. */
  lemma NoFlappingIsTight(cfg: Config.Config, mode: Mode, enabled: bool, m: nat)
    ensures var es := Bursts(cfg.fan.SensorLimit(), m);
      && Ticks(es) == m * (cfg.fan.SensorLimit() + 1)
      && Reclaims(Reached(cfg, mode, enabled, es).bmc.log) == m
  {
    BurstTicks(cfg.fan.SensorLimit(), m);
    InvBoot(cfg, mode, enabled);
    BurstsReclaim(cfg, Boot(mode, enabled), m);
  }

  // ----- Bounded hand-back -----

  /** `log` grew by hand-back attempts only; the last one was acknowledged if `confirmed`, the others were not. */
  ghost predicate HandBackTail(before: seq<Attempt>, log: seq<Attempt>, confirmed: bool) {
    && before <= log
    && (confirmed ==> |before| < |log|)
    && forall k :: |before| <= k < |log| ==>
         log[k] == Attempt(RestoreAuto, confirmed && k == |log| - 1)
  }

  lemma TailGrows(before: seq<Attempt>, log: seq<Attempt>, ok: bool)
    requires HandBackTail(before, log, false)
    ensures HandBackTail(before, log + [Attempt(RestoreAuto, ok)], ok)
  {
  }

  ghost predicate AllBlind(es: seq<Event>) {
    forall e <- es :: e.Tick? ==> e.input.read.None?
  }

  /** A sensor blackout from active control: before the limit nothing is sent; from the limit on the
      controller is in sensor fail-safe, and every tick sends one hand-back until one is acknowledged.
      The fans are never touched. */
  lemma {:induction false} Blackout(cfg: Config.Config, s: State, es: seq<Event>)
    requires Inv(cfg, s) && s.fs.cause.NoFailsafe? && AllBlind(es)
    ensures var s', left := Run(cfg, s, es), cfg.fan.SensorLimit() - s.fs.sensorFails;
      && s'.drive == s.drive
      && s'.fs.sensorFails == s.fs.sensorFails + Ticks(es)
      && (Ticks(es) < left ==> s'.fs.cause.NoFailsafe? && s'.bmc == s.bmc)
      && (Ticks(es) >= left ==>
            && s'.fs.cause.SensorLoss?
            && HandBackTail(s.bmc.log, s'.bmc.log, s'.fs.restoreConfirmed)
            && 1 <= |s'.bmc.log| - |s.bmc.log| <= Ticks(es) - left + 1
            && (!s'.fs.restoreConfirmed ==> |s'.bmc.log| - |s.bmc.log| == Ticks(es) - left + 1))
    decreases |es|
  {
    if es != [] {
      var before, e := Run(cfg, s, es[..|es| - 1]), es[|es| - 1];
      Blackout(cfg, s, es[..|es| - 1]);
      InvRun(cfg, s, es[..|es| - 1]);
      if e.Tick? && !before.fs.restoreConfirmed {
        TailGrows(s.bmc.log, before.bmc.log, if before.fs.Active() then e.input.retryOk else e.input.handBackOk);
      }
    }
  }

  /** A tick that starts with a pending hand-back retries it once, first thing, and sends nothing else
      unless the retry is acknowledged. */
  lemma PendingTick(cfg: Config.Config, s: State, i: Input)
    requires Inv(cfg, s) && s.fs.RestorePending()
    ensures var s' := TickStep(cfg, s, i);
      && s.bmc.log + [Attempt(RestoreAuto, i.retryOk)] <= s'.bmc.log
      && (!i.retryOk ==>
            && s'.bmc.log == s.bmc.log + [Attempt(RestoreAuto, false)]
            && s'.bmc.mode == s.bmc.mode && s'.fs.RestorePending() && s'.drive == s.drive)
  {
  }

  function HandBackAttempts(log: seq<Attempt>): nat {
    if log == [] then 0
    else HandBackAttempts(log[..|log| - 1]) + if log[|log| - 1].command.RestoreAuto? then 1 else 0
  }

  lemma AttemptsSnoc(log: seq<Attempt>, a: Attempt)
    ensures HandBackAttempts(log + [a]) == HandBackAttempts(log) + if a.command.RestoreAuto? then 1 else 0
  {
    assert (log + [a])[..|log|] == log;
  }

  /** The one way to attempt two hand-backs in a tick: with a write limit of one, an acknowledged retry,
      an acknowledged reclaim and then a failed write. */
  ghost predicate TwoEpisodes(cfg: Config.Config, s: State, i: Input) {
    && cfg.fan.WriteLimit() == 1 && s.fs.cause.SensorLoss? && !s.fs.restoreConfirmed
    && i.retryOk && i.read.Some? && i.reclaimOk && !i.writeOk
  }

  lemma AttemptsInFailure(cfg: Config.Config, s: State, ok: bool)
    requires Inv(cfg, s) && !s.fs.cause.WriteFailure?
    ensures HandBackAttempts(SensorFailure(cfg, s, ok).bmc.log) - HandBackAttempts(s.bmc.log)
         == if s.fs.cause.NoFailsafe? && s.fs.sensorFails + 1 >= cfg.fan.SensorLimit() then 1 else 0
  {
    hide HandBackAttempts, PhaseOf, WriteStreak, LastWritten, LastWriteRefused;
    AttemptsSnoc(s.bmc.log, Attempt(RestoreAuto, ok));
  }

  lemma AttemptsInHealthy(cfg: Config.Config, s: State, r: Reading, i: Input)
    ensures HandBackAttempts(Healthy(cfg, s, r, i).state.bmc.log) == HandBackAttempts(s.bmc.log)
  {
    hide HandBackAttempts;
    AttemptsSnoc(s.bmc.log, Attempt(EnableManual, i.reclaimOk));
  }

  lemma AttemptsInSense(cfg: Config.Config, s: State, i: Input)
    requires Inv(cfg, s)
    ensures HandBackAttempts(Sense(cfg, s, i).state.bmc.log) - HandBackAttempts(s.bmc.log)
         == if s.fs.RestorePending() || (s.fs.cause.NoFailsafe? && i.read.None? && s.fs.sensorFails + 1 >= cfg.fan.SensorLimit())
            then 1 else 0
  {
    var s1 := Retry(s, i.retryOk);
    InvRetry(cfg, s, i.retryOk);
    AttemptsSnoc(s.bmc.log, Attempt(RestoreAuto, i.retryOk));
    hide Inv, HandBackAttempts, SensorFailure, Healthy, Record;
    if !s1.fs.cause.WriteFailure? {
      if i.read.None? {
        AttemptsInFailure(cfg, s1, i.handBackOk);
      } else {
        AttemptsInHealthy(cfg, s1.(fs := s1.fs.(sensorFails := 0)), i.read.value, i);
      }
    }
  }

  lemma AttemptsInWrite(cfg: Config.Config, s: State, speed: int, ok: bool, handBackOk: bool)
    requires s.fs.cause.NoFailsafe?
    ensures HandBackAttempts(Write(cfg, s, speed, ok, handBackOk).bmc.log) - HandBackAttempts(s.bmc.log)
         == if !ok && s.fs.writeFails + 1 >= cfg.fan.WriteLimit() then 1 else 0
  {
    var write := Attempt(SetFan(speed), ok);
    AttemptsSnoc(s.bmc.log, write);
    AttemptsSnoc(s.bmc.log + [write], Attempt(RestoreAuto, handBackOk));
  }

  lemma HandBackAttemptsPerTick(cfg: Config.Config, s: State, i: Input)
    requires Inv(cfg, s)
    ensures var n := HandBackAttempts(TickStep(cfg, s, i).bmc.log) - HandBackAttempts(s.bmc.log);
            if TwoEpisodes(cfg, s, i) then n == 2 else 0 <= n <= 1
  {
    AttemptsInSense(cfg, s, i);
    InvSense(cfg, s, i);
    var sensed := Sense(cfg, s, i);
    if sensed.decides.Some? {
      var decided := Decide(cfg, CallAll(cfg, sensed.state, i.between), sensed.decides.value, i.clock.decide);
      AttemptsInWrite(cfg, decided, decided.drive.target, i.writeOk, i.handBackOk);
      assert s.fs.RestorePending() ==> sensed.state.fs == Cleared;
    }
  }

  // ----- The watchdog: no control for long without an acknowledged write -----

  /** Ticks the controller may still go on without an acknowledged fan write before it hands back. */
  function Patience(cfg: Config.Config, fs: Failsafe): int {
    Rounds(cfg.fan.WriteLimit() - 1 - fs.writeFails, cfg.fan.SensorLimit()) + cfg.fan.SensorLimit() - fs.sensorFails
  }

  function Rounds(n: int, limit: nat): int {
    n * limit
  }

  lemma OneRoundLess(n: int, limit: nat)
    ensures Rounds(n - 1, limit) == Rounds(n, limit) - limit
    ensures 0 <= n ==> 0 <= Rounds(n, limit)
  {
    if 0 <= n {
      MulMonotone(0, n, limit);
    }
  }

  lemma PatienceIsLeft(cfg: Config.Config, s: State)
    requires Inv(cfg, s) && s.fs.cause.NoFailsafe?
    ensures Patience(cfg, s.fs) >= 1
  {
    OneRoundLess(cfg.fan.WriteLimit() - 1 - s.fs.writeFails, cfg.fan.SensorLimit());
    hide Rounds;
  }

  /** None of the fan writes after the first `from` commands is acknowledged. */
  ghost predicate WritesRefused(log: seq<Attempt>, from: nat) {
    forall k :: from <= k < |log| && log[k].command.SetFan? ==> !log[k].ok
  }

  lemma {:induction false} AttemptsGrow(log: seq<Attempt>, more: seq<Attempt>)
    requires log <= more
    ensures HandBackAttempts(log) <= HandBackAttempts(more)
    decreases |more|
  {
    if |log| < |more| {
      AttemptsGrow(log, more[..|more| - 1]);
    } else {
      assert log == more;
    }
  }

  lemma LogGrows(cfg: Config.Config, s: State, e: Event)
    ensures s.bmc.log <= Step(cfg, s, e).bmc.log
  {
    if e.Tick? {
      var sensed := Sense(cfg, s, e.input);
      SenseSetsNoFan(cfg, s, e.input);
      hide Sense, Write, SpeedLaw.Decide;
      if sensed.decides.Some? {
        var decided := Decide(cfg, CallAll(cfg, sensed.state, e.input.between), sensed.decides.value, e.input.clock.decide);
        WriteSetsOneSpeed(cfg, decided, decided.drive.target, e.input.writeOk, e.input.handBackOk);
      }
    }
  }

  lemma PatienceInSense(cfg: Config.Config, s: State, i: Input)
    requires Inv(cfg, s) && s.fs.cause.NoFailsafe?
    ensures var s' := Sense(cfg, s, i).state;
      && (i.read.Some? ==> Sense(cfg, s, i).decides == i.read && s'.bmc == s.bmc && s'.fs == s.fs.(sensorFails := 0))
      && (i.read.None? && s.fs.sensorFails + 1 < cfg.fan.SensorLimit() ==>
            Sense(cfg, s, i).decides.None? && s'.bmc == s.bmc && s'.fs == s.fs.(sensorFails := s.fs.sensorFails + 1))
  {
    hide History.Record, Store.Clean, PhaseOf, WriteStreak, LastWritten, LastWriteRefused;
  }

  /** One refused fan write was sent, and no hand-back. */
  ghost predicate OnlyARefusedWrite(s: State, s': State) {
    && s.bmc.log <= s'.bmc.log && WritesRefused(s'.bmc.log, |s.bmc.log|)
    && HandBackAttempts(s'.bmc.log) == HandBackAttempts(s.bmc.log)
    && s'.fs == s.fs.(writeFails := s.fs.writeFails + 1)
  }

  lemma PatienceInWrite(cfg: Config.Config, s: State, speed: int, ok: bool, handBackOk: bool)
    requires s.fs.cause.NoFailsafe?
    ensures var s' := Write(cfg, s, speed, ok, handBackOk);
      && (ok ==> !WritesRefused(s'.bmc.log, |s.bmc.log|))
      && (!ok && s.fs.writeFails + 1 < cfg.fan.WriteLimit() ==> OnlyARefusedWrite(s, s'))
      && (!ok && s.fs.writeFails + 1 >= cfg.fan.WriteLimit() ==> HandBackAttempts(s'.bmc.log) > HandBackAttempts(s.bmc.log))
  {
    var log := Write(cfg, s, speed, ok, handBackOk).bmc.log;
    assert log[|s.bmc.log|] == Attempt(SetFan(speed), ok);
    hide HandBackAttempts;
    AttemptsInWrite(cfg, s, speed, ok, handBackOk);
  }

  lemma PatienceInAct(cfg: Config.Config, s: State, r: Reading, i: Input)
    requires s.fs.cause.NoFailsafe?
    ensures var s' := Act(cfg, s, r, i);
      && (i.writeOk ==> !WritesRefused(s'.bmc.log, |s.bmc.log|))
      && (!i.writeOk && s.fs.writeFails + 1 < cfg.fan.WriteLimit() ==> OnlyARefusedWrite(s, s'))
      && (!i.writeOk && s.fs.writeFails + 1 >= cfg.fan.WriteLimit() ==>
            HandBackAttempts(s'.bmc.log) > HandBackAttempts(s.bmc.log))
  {
    var decided := Decide(cfg, s, r, i.clock.decide);
    assert decided.fs == s.fs && decided.bmc == s.bmc;
    hide Write, SpeedLaw.Decide, HandBackAttempts, WritesRefused, Decide;
    PatienceInWrite(cfg, decided, decided.drive.target, i.writeOk, i.handBackOk);
  }

  /** A tick in control attempts a hand-back, or has its write acknowledged, or uses up patience. */
  lemma PatienceRunsOut(cfg: Config.Config, s: State, i: Input)
    requires Inv(cfg, s) && s.fs.cause.NoFailsafe?
    ensures var s' := TickStep(cfg, s, i);
      || HandBackAttempts(s'.bmc.log) > HandBackAttempts(s.bmc.log)
      || !WritesRefused(s'.bmc.log, |s.bmc.log|)
      || (s'.fs.cause.NoFailsafe? && Patience(cfg, s'.fs) <= Patience(cfg, s.fs) - 1)
  {
    PatienceInSense(cfg, s, i);
    AttemptsInSense(cfg, s, i);
    OneRoundLess(cfg.fan.WriteLimit() - 1 - s.fs.writeFails, cfg.fan.SensorLimit());
    assert s.fs.sensorFails < cfg.fan.SensorLimit();
    hide Inv, Sense, Act, HandBackAttempts, WritesRefused, Rounds;
    var sensed := Sense(cfg, s, i);
    if sensed.decides.Some? {
      PatienceInAct(cfg, CallAll(cfg, sensed.state, i.between), sensed.decides.value, i);
    }
  }

  lemma {:induction false} PatienceOverRuns(cfg: Config.Config, s: State, es: seq<Event>)
    requires Inv(cfg, s) && s.fs.cause.NoFailsafe?
    ensures var s' := Run(cfg, s, es);
      && s.bmc.log <= s'.bmc.log
      && (|| HandBackAttempts(s'.bmc.log) > HandBackAttempts(s.bmc.log)
          || !WritesRefused(s'.bmc.log, |s.bmc.log|)
          || (s'.fs.cause.NoFailsafe? && Patience(cfg, s'.fs) <= Patience(cfg, s.fs) - Ticks(es)))
    decreases |es|
  {
    if es != [] {
      var init, e := es[..|es| - 1], es[|es| - 1];
      PatienceOverRuns(cfg, s, init);
      InvRun(cfg, s, init);
      var before := Run(cfg, s, init);
      LogGrows(cfg, before, e);
      AttemptsGrow(before.bmc.log, Step(cfg, before, e).bmc.log);
      AttemptsGrow(s.bmc.log, before.bmc.log);
      hide Inv, TickStep, HandBackAttempts, Patience;
      if e.Tick? && before.fs.cause.NoFailsafe? {
        PatienceRunsOut(cfg, before, e.input);
      }
    }
  }

  /** From any state in control, however sensor and write failures interleave: if no fan write is acknowledged,
      a hand-back is attempted once the ticks reach the patience left; from boot, that is the product of the
      two limits. */
  lemma Watchdog(cfg: Config.Config, s: State, es: seq<Event>)
    requires Inv(cfg, s) && s.fs.cause.NoFailsafe?
    requires WritesRefused(Run(cfg, s, es).bmc.log, |s.bmc.log|) && Ticks(es) >= Patience(cfg, s.fs)
    ensures HandBackAttempts(Run(cfg, s, es).bmc.log) > HandBackAttempts(s.bmc.log)
  {
    PatienceOverRuns(cfg, s, es);
    InvRun(cfg, s, es);
    hide Run, Inv, Patience, HandBackAttempts, WritesRefused;
    if Run(cfg, s, es).fs.cause.NoFailsafe? {
      PatienceIsLeft(cfg, Run(cfg, s, es));
    }
  }

  // The bound is exact: one tick fewer, and there is a run without a hand-back.

  const Refused: Event := Tick(Input(Some(Reading(0, 0)), Clock(0, 0, 0, 0), true, true, false, true, []))

  /** A tick of either kind uses up exactly one, if it does not trip a limit. */
  lemma SlowTick(cfg: Config.Config, s: State, e: Event)
    requires Inv(cfg, s) && s.fs.cause.NoFailsafe?
    requires || (e == Blind && s.fs.sensorFails + 1 < cfg.fan.SensorLimit())
             || (e == Refused && s.fs.sensorFails + 1 == cfg.fan.SensorLimit() && s.fs.writeFails + 1 < cfg.fan.WriteLimit())
    ensures var s' := Step(cfg, s, e);
      && s'.fs.cause.NoFailsafe? && Patience(cfg, s'.fs) == Patience(cfg, s.fs) - 1
      && HandBackAttempts(s'.bmc.log) == HandBackAttempts(s.bmc.log)
      && s.bmc.log <= s'.bmc.log && WritesRefused(s'.bmc.log, |s.bmc.log|)
  {
    var i := e.input;
    PatienceInSense(cfg, s, i);
    OneRoundLess(cfg.fan.WriteLimit() - 1 - s.fs.writeFails, cfg.fan.SensorLimit());
    hide Inv, Sense, Act, HandBackAttempts, Rounds;
    var sensed := Sense(cfg, s, i);
    if sensed.decides.Some? {
      PatienceInAct(cfg, CallAll(cfg, sensed.state, i.between), sensed.decides.value, i);
    }
  }

  /** In control with patience left, there is such a tick. */
  lemma SlowestTick(cfg: Config.Config, s: State) returns (e: Event)
    requires Inv(cfg, s) && s.fs.cause.NoFailsafe? && Patience(cfg, s.fs) > 1
    ensures e.Tick?
    ensures var s' := Step(cfg, s, e);
      && Inv(cfg, s') && s'.fs.cause.NoFailsafe? && Patience(cfg, s'.fs) == Patience(cfg, s.fs) - 1
      && HandBackAttempts(s'.bmc.log) == HandBackAttempts(s.bmc.log)
      && s.bmc.log <= s'.bmc.log && WritesRefused(s'.bmc.log, |s.bmc.log|)
  {
    assert s.fs.sensorFails < cfg.fan.SensorLimit() && s.fs.writeFails < cfg.fan.WriteLimit();
    assert s.fs.writeFails + 1 == cfg.fan.WriteLimit() ==> Patience(cfg, s.fs) == cfg.fan.SensorLimit() - s.fs.sensorFails;
    hide Inv, Step, Patience, HandBackAttempts, WritesRefused;
    e := if s.fs.sensorFails + 1 < cfg.fan.SensorLimit() then Blind else Refused;
    SlowTick(cfg, s, e);
    InvStep(cfg, s, e);
  }

  lemma RunCons(cfg: Config.Config, s: State, e: Event, rest: seq<Event>)
    ensures Run(cfg, s, [e] + rest) == Run(cfg, Step(cfg, s, e), rest)
    ensures Ticks([e] + rest) == Ticks(rest) + if e.Tick? then 1 else 0
  {
    hide Step;
    RunConcat(cfg, s, [e], rest);
    RunSnoc(cfg, s, [], e);
    assert [] + [e] == [e] && [e][..0] == [];
    TicksConcat([e], rest);
  }

  lemma {:induction false} WatchdogIsTight(cfg: Config.Config, s: State) returns (es: seq<Event>)
    requires Inv(cfg, s) && s.fs.cause.NoFailsafe?
    ensures Ticks(es) == Patience(cfg, s.fs) - 1
    ensures var s' := Run(cfg, s, es);
      && s.bmc.log <= s'.bmc.log && WritesRefused(s'.bmc.log, |s.bmc.log|)
      && HandBackAttempts(s'.bmc.log) == HandBackAttempts(s.bmc.log)
    decreases Patience(cfg, s.fs)
  {
    PatienceIsLeft(cfg, s);
    es := [];
    if Patience(cfg, s.fs) > 1 {
      var e := SlowestTick(cfg, s);
      hide Inv, Step, Patience, HandBackAttempts;
      var rest := WatchdogIsTight(cfg, Step(cfg, s, e));
      es := [e] + rest;
      RunCons(cfg, s, e, rest);
      hide Run;
    }
  }

  // ----- The write fail-safe -----

  /** Once entered, no run leaves the write fail-safe: speeds and counters are frozen, the only commands
      are hand-backs, one a tick until acknowledged, and then none at all. */
  lemma {:induction false} WriteFailsafeAbsorbs(cfg: Config.Config, s: State, es: seq<Event>)
    requires Inv(cfg, s) && s.fs.cause.WriteFailure?
    ensures var s' := Run(cfg, s, es);
      && s'.fs.cause.WriteFailure?
      && s'.fs.sensorFails == s.fs.sensorFails && s'.fs.writeFails == s.fs.writeFails
      && s'.drive == s.drive && s'.lastWriteFailed == s.lastWriteFailed
      && (s.fs.restoreConfirmed ==> s'.bmc == s.bmc && s'.fs == s.fs)
      && (!s.fs.restoreConfirmed ==>
            && HandBackTail(s.bmc.log, s'.bmc.log, s'.fs.restoreConfirmed)
            && (!s'.fs.restoreConfirmed ==> |s'.bmc.log| == |s.bmc.log| + Ticks(es)))
    decreases |es|
  {
    if es != [] {
      WriteFailsafeAbsorbs(cfg, s, es[..|es| - 1]);
    }
  }

  // ----- Counters -----

  /** How many failed sensor reads the run ends with. */
  function TrailingFailedReads(es: seq<Event>): nat {
    if es == [] then 0
    else
      var e, before := es[|es| - 1], TrailingFailedReads(es[..|es| - 1]);
      if e.Call? then before else if e.input.read.Some? then 0 else before + 1
  }

  lemma {:induction false} CountersAreHistory(cfg: Config.Config, mode: Mode, enabled: bool, es: seq<Event>)
    ensures var s := Reached(cfg, mode, enabled, es);
      && (!s.fs.cause.WriteFailure? ==> s.fs.sensorFails == TrailingFailedReads(es))
      && s.fs.writeFails == WriteStreak(s.bmc.log)
      && CountersFit(cfg, s.fs)
    decreases |es|
  {
    ReachedInv(cfg, mode, enabled, es);
    if es != [] {
      CountersAreHistory(cfg, mode, enabled, es[..|es| - 1]);
      ReachedInv(cfg, mode, enabled, es[..|es| - 1]);
      SensorCountStep(cfg, Reached(cfg, mode, enabled, es[..|es| - 1]), es[|es| - 1]);
    }
  }

  /** What trips the two fail-safes: the write fail-safe is on exactly when the limit of refused writes in
      a row is reached, and with it off the sensor fail-safe is on whenever the run ends in that many
      failed reads. */
  lemma FailsafesTripAtTheirLimits(cfg: Config.Config, m: Config.Settings, mode: Mode, enabled: bool, es: seq<Event>)
    requires Config.Means(cfg.fan, m)
    ensures var s := Reached(cfg, mode, enabled, es);
      && WriteStreak(s.bmc.log) <= m.writeLimit
      && (s.fs.cause.WriteFailure? <==> WriteStreak(s.bmc.log) == m.writeLimit)
      && (!s.fs.cause.WriteFailure? && TrailingFailedReads(es) >= m.sensorLimit ==> s.fs.cause.SensorLoss?)
  {
    CountersAreHistory(cfg, mode, enabled, es);
  }

  ghost predicate OnlyFailedReads(es: seq<Event>) {
    forall k :: 0 <= k < |es| && es[k].Tick? ==> es[k].input.read.None?
  }

  ghost predicate OnlyRefusedWrites(es: seq<Event>) {
    forall k :: 0 <= k < |es| && es[k].Tick? ==> es[k].input.read.Some? && !es[k].input.writeOk
  }

  /** Under failed reads only, from boot: in control until the configured number of them, in the sensor
      fail-safe from then on. */
  lemma {:induction false} SensorLossAtTheLimit(cfg: Config.Config, m: Config.Settings, mode: Mode, enabled: bool, es: seq<Event>)
    requires Config.Means(cfg.fan, m) && OnlyFailedReads(es)
    ensures var s := Reached(cfg, mode, enabled, es);
      && s.fs.cause == (if Ticks(es) < m.sensorLimit then NoFailsafe else SensorLoss)
      && s.fs.sensorFails == Ticks(es)
      && |s.bmc.log| == 1 + HandBackAttempts(s.bmc.log)
      && (HandBackAttempts(s.bmc.log) > 0 <==> Ticks(es) >= m.sensorLimit)
    decreases |es|
  {
    if es != [] {
      SensorLossAtTheLimit(cfg, m, mode, enabled, es[..|es| - 1]);
      var s := Reached(cfg, mode, enabled, es[..|es| - 1]);
      ReachedInv(cfg, mode, enabled, es[..|es| - 1]);
      hide Inv;
      if es[|es| - 1].Tick? {
        FailedReadTick(cfg, m, s, es[|es| - 1].input);
      }
    }
  }

  lemma FailedReadTick(cfg: Config.Config, m: Config.Settings, s: State, i: Input)
    requires Config.Means(cfg.fan, m) && i.read.None? && !s.fs.cause.WriteFailure? && 0 <= s.fs.sensorFails
    requires s.fs.cause.NoFailsafe? <==> s.fs.sensorFails < m.sensorLimit
    requires s.fs.cause.NoFailsafe? ==> !s.fs.restoreConfirmed
    ensures var s' := TickStep(cfg, s, i);
      && s'.fs.cause == (if s.fs.sensorFails + 1 < m.sensorLimit then NoFailsafe else SensorLoss)
      && s'.fs.sensorFails == s.fs.sensorFails + 1
      && |s'.bmc.log| - |s.bmc.log| == HandBackAttempts(s'.bmc.log) - HandBackAttempts(s.bmc.log) >= 0
      && (s.fs.cause.NoFailsafe? && s.fs.sensorFails + 1 >= m.sensorLimit ==> |s'.bmc.log| > |s.bmc.log|)
      && (s.fs.sensorFails + 1 < m.sensorLimit ==> s'.bmc == s.bmc)
  {
    hide HandBackAttempts;
    AttemptsSnoc(s.bmc.log, Attempt(RestoreAuto, i.retryOk));
    AttemptsSnoc(s.bmc.log, Attempt(RestoreAuto, i.handBackOk));
  }

  /** Under refused writes only, from boot: in control until the configured number of them, in the write
      fail-safe from then on. */
  lemma {:induction false} WriteFailureAtTheLimit(cfg: Config.Config, m: Config.Settings, mode: Mode, enabled: bool, es: seq<Event>)
    requires Config.Means(cfg.fan, m) && OnlyRefusedWrites(es)
    ensures var s := Reached(cfg, mode, enabled, es);
      && s.fs.cause == (if Ticks(es) < m.writeLimit then NoFailsafe else WriteFailure)
      && s.fs.writeFails == Min(Ticks(es), m.writeLimit)
    decreases |es|
  {
    if es != [] {
      WriteFailureAtTheLimit(cfg, m, mode, enabled, es[..|es| - 1]);
      hide TickStep;
      if es[|es| - 1].Tick? {
        RefusedWriteTick(cfg, m, Reached(cfg, mode, enabled, es[..|es| - 1]), es[|es| - 1].input);
      }
    }
  }

  lemma RefusedWriteTick(cfg: Config.Config, m: Config.Settings, s: State, i: Input)
    requires Config.Means(cfg.fan, m) && i.read.Some? && !i.writeOk
    requires s.fs.cause == (if s.fs.writeFails < m.writeLimit then NoFailsafe else WriteFailure)
    ensures var s' := TickStep(cfg, s, i);
      && s'.fs.cause == (if s.fs.writeFails + 1 < m.writeLimit then NoFailsafe else WriteFailure)
      && s'.fs.writeFails == if s.fs.cause.NoFailsafe? then s.fs.writeFails + 1 else s.fs.writeFails
  {
    hide SpeedLaw.Decide, Store.Clean, History.Record;
  }

  lemma SensorCountStep(cfg: Config.Config, s: State, e: Event)
    requires Inv(cfg, s)
    ensures var s' := Step(cfg, s, e);
      && (s.fs.cause.WriteFailure? ==> s'.fs.cause.WriteFailure?)
      && (!s'.fs.cause.WriteFailure? ==>
            s'.fs.sensorFails == if e.Call? then s.fs.sensorFails else if e.input.read.Some? then 0 else s.fs.sensorFails + 1)
  {
  }

  // ----- The actuator -----

  ghost predicate FanSetAllowed(cfg: Config.Config, r: Reading, speed: int) {
    if cfg.fan.IsCritical(r) then speed == cfg.fan.EmergencySpeed()
    else cfg.fan.minSpeed <= speed <= cfg.fan.maxSpeed
  }

  lemma SenseSetsNoFan(cfg: Config.Config, s: State, i: Input)
    ensures var log := Sense(cfg, s, i).state.bmc.log;
            s.bmc.log <= log && forall k :: |s.bmc.log| <= k < |log| ==> !log[k].command.SetFan?
  {
  }

  lemma WriteSetsOneSpeed(cfg: Config.Config, s: State, speed: int, ok: bool, handBackOk: bool)
    ensures var log := Write(cfg, s, speed, ok, handBackOk).bmc.log;
            s.bmc.log <= log && forall k :: |s.bmc.log| <= k < |log| && log[k].command.SetFan? ==> log[k].command.speed == speed
    ensures Write(cfg, s, speed, ok, handBackOk).drive.target == s.drive.target
  {
  }

  /** A tick sends a fan speed only if both sensors answered, and then the one speed the reading allows. */
  lemma FanSetsOfATick(cfg: Config.Config, s: State, i: Input)
    requires cfg.fan.Safe()
    ensures var s' := TickStep(cfg, s, i);
      && s.bmc.log <= s'.bmc.log
      && forall k :: |s.bmc.log| <= k < |s'.bmc.log| && s'.bmc.log[k].command.SetFan? ==>
           && i.read.Some?
           && s'.bmc.log[k].command.speed == s'.drive.target
           && FanSetAllowed(cfg, i.read.value, s'.drive.target)
  {
    SenseSetsNoFan(cfg, s, i);
    TickDrive(cfg, s, i);
    hide SpeedLaw.Decide, Sense, Write;
    var sensed := Sense(cfg, s, i);
    if sensed.decides.Some? {
      var called := CallAll(cfg, sensed.state, i.between);
      SpeedLaw.TargetInBand(cfg.fan, called.drive, Store.Floor(called.store.hints), called.store.override,
                            sensed.decides.value, i.clock.decide);
      var decided := Decide(cfg, called, sensed.decides.value, i.clock.decide);
      WriteSetsOneSpeed(cfg, decided, decided.drive.target, i.writeOk, i.handBackOk);
    }
  }

  ghost predicate SpeedsAllowed(cfg: Config.Config, log: seq<Attempt>) {
    forall a <- log :: a.command.SetFan? ==>
      && 0 <= a.command.speed <= 100
      && (cfg.fan.minSpeed <= a.command.speed <= cfg.fan.maxSpeed || a.command.speed == cfg.fan.EmergencySpeed())
  }

  /** Every speed ever sent is a percentage inside the band or the emergency speed, and the controller's
      current speed is the last one the BMC acknowledged. */
  lemma {:induction false} ActuatorTrace(cfg: Config.Config, mode: Mode, enabled: bool, es: seq<Event>)
    requires cfg.fan.Safe()
    ensures var s := Reached(cfg, mode, enabled, es);
      && SpeedsAllowed(cfg, s.bmc.log)
      && s.drive.current == LastWritten(s.bmc.log)
      && s.lastWriteFailed == LastWriteRefused(s.bmc.log)
    decreases |es|
  {
    ReachedInv(cfg, mode, enabled, es);
    hide TickStep;
    if es != [] {
      ActuatorTrace(cfg, mode, enabled, es[..|es| - 1]);
      if es[|es| - 1].Tick? {
        FanSetsOfATick(cfg, Reached(cfg, mode, enabled, es[..|es| - 1]), es[|es| - 1].input);
      }
    }
  }
}
