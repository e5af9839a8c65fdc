/**
 The controller object of internal/controller/fan.go: fields updated in place, one method per
 source method, each proved to do what the transition functions of module Control say.
 */
module FanControllers {
  import opened Basics
  import opened Bmc
  import opened Control
  import Config
  import FailSafe
  import History
  import SpeedLaw
  import SpeedRuns
  import Store

  /** What the select of Run can come upon. */
  datatype Wake = TickerFired(input: Input) | ApiCalled(command: Store.Command) | StopClosed

  /** How many wake-ups come before the stop channel is picked. */
  function BeforeStop(wakes: seq<Wake>): (n: nat)
    ensures n <= |wakes| && (n < |wakes| ==> wakes[n] == StopClosed)
    ensures forall k :: 0 <= k < n ==> wakes[k] != StopClosed
  {
    if wakes == [] || wakes[0] == StopClosed then 0 else 1 + BeforeStop(wakes[1..])
  }

  function EventOf(wake: Wake): Event
    requires wake != StopClosed
  {
    if wake.TickerFired? then Tick(wake.input) else Call(wake.command)
  }

  /** What the loop takes part in before it is stopped. */
  function EventsOf(wakes: seq<Wake>): seq<Event> {
    seq(BeforeStop(wakes), k requires 0 <= k < BeforeStop(wakes) => EventOf(wakes[k]))
  }

  /** The status that the API reports. */
  datatype Status = Status(
    timestamp: Time, cpuTrend: real, gpuTrend: real, zones: seq<Config.Zone>,
    reading: Option<Reading>, currentSpeed: int, targetSpeed: int, zone: string, mode: string,
    activeHints: seq<Store.Hint>, override: Option<Store.Override>,
    cpuThreshold: int, gpuThreshold: int, idleSpeed: int,
    failsafeActive: bool, failsafeReason: string, restorePending: bool, lastWriteFailed: bool)

  class FanController {
    const cfg: Config.Config

    var currentSpeed: int
    var targetSpeed: int
    var currentZone: string
    var lastReading: Option<Reading>
    var hints: map<string, Store.Hint>
    var override: Option<Store.Override>
    var failsafeCause: Cause
    var restoreConfirmed: bool
    var lastWriteFailed: bool
    var sensorFailCount: nat
    var writeFailCount: nat
    var cpuHistory: seq<History.Point>
    var gpuHistory: seq<History.Point>
    var lastOverThreshold: Option<Time>

    /** The device at the other end of runCommand. */
    var bmc: Bmc

    ghost function Abs(): State
      reads this
    {
      State(Failsafe(failsafeCause, restoreConfirmed, sensorFailCount, writeFailCount),
            SpeedLaw.Drive(currentSpeed, targetSpeed, currentZone, lastOverThreshold),
            lastWriteFailed,
            Store.Store(hints, override),
            lastReading,
            History.History(cpuHistory, gpuHistory),
            bmc)
    }

    constructor (cfg: Config.Config, mode: Mode)
      ensures this.cfg == cfg && Abs() == Fresh(mode)
      ensures currentSpeed == targetSpeed == 0 && currentZone == "" && lastOverThreshold == None && !lastWriteFailed
      ensures lastReading == None && hints == map[] && override == None && cpuHistory == gpuHistory == []
      ensures failsafeCause == NoFailsafe && !restoreConfirmed && sensorFailCount == writeFailCount == 0
      ensures bmc == Bmc(mode, [])
    {
      this.cfg := cfg;
      currentSpeed, targetSpeed, currentZone, lastReading := 0, 0, "", None;
      hints, override := map[], None;
      failsafeCause, restoreConfirmed, lastWriteFailed := NoFailsafe, false, false;
      sensorFailCount, writeFailCount := 0, 0;
      cpuHistory, gpuHistory, lastOverThreshold := [], [], None;
      bmc := Bmc(mode, []);
    }

    // ----- Commands to the BMC; `ok` is its answer -----

    method Ipmitool(command: Command, ok: bool) returns (failed: bool)
      modifies this`bmc
      ensures bmc == old(bmc).Execute(command, ok) && failed == !ok
    {
      bmc := bmc.Execute(command, ok);
      failed := !ok;
    }

    method EnableManualMode(ok: bool) returns (failed: bool)
      modifies this`bmc
      ensures bmc == old(bmc).Execute(EnableManual, ok) && failed == !ok
    {
      failed := Ipmitool(EnableManual, ok);
    }

    method RestoreAutoMode(ok: bool) returns (failed: bool)
      modifies this`bmc
      ensures bmc == old(bmc).Execute(RestoreAuto, ok) && failed == !ok
    {
      failed := Ipmitool(RestoreAuto, ok);
    }

    method SetFanSpeed(speed: int, ok: bool) returns (failed: bool)
      modifies this`bmc, this`lastWriteFailed, this`currentSpeed
      ensures Abs() == Control.SetFanSpeed(old(Abs()), speed, ok) && failed == !ok
    {
      failed := Ipmitool(SetFan(speed), ok);
      if failed {
        lastWriteFailed := true;
        return;
      }
      currentSpeed := speed;
      lastWriteFailed := false;
    }

    // ----- Fail-safe -----

    method AttemptRestore(ok: bool)
      modifies this`bmc, this`restoreConfirmed
      ensures Abs() == Control.AttemptRestore(old(Abs()), ok)
      ensures bmc == old(bmc).Execute(RestoreAuto, ok) && restoreConfirmed == (old(restoreConfirmed) || ok)
    {
      var failed := RestoreAutoMode(ok);
      if failed {
        return;
      }
      restoreConfirmed := true;
    }

    method EnsureAutoRestored(ok: bool)
      modifies this`bmc, this`restoreConfirmed
      ensures Abs() == Retry(old(Abs()), ok)
    {
      var pending := failsafeCause != NoFailsafe && !restoreConfirmed;
      if !pending {
        return;
      }
      AttemptRestore(ok);
    }

    method EnterFailsafe(cause: Cause, ok: bool)
      modifies this`bmc, this`restoreConfirmed, this`failsafeCause
      ensures Abs() == Control.EnterFailsafe(old(Abs()), cause, ok)
      ensures failsafeCause == if old(failsafeCause) == WriteFailure then WriteFailure else cause
      ensures bmc == if old(failsafeCause) == NoFailsafe then old(bmc).Execute(RestoreAuto, ok) else old(bmc)
    {
      var prev := failsafeCause;
      if prev == WriteFailure {
        return;
      }
      failsafeCause := cause;
      if prev != NoFailsafe {
        return;
      }
      AttemptRestore(ok);
    }

    method HandleSensorFailure(ok: bool)
      modifies this`bmc, this`restoreConfirmed, this`failsafeCause, this`sensorFailCount
      ensures Abs() == SensorFailure(cfg, old(Abs()), ok)
      ensures forall m: Config.Settings {:trigger Config.Means(cfg.fan, m)} :: Config.Means(cfg.fan, m) ==>
        failsafeCause == if old(failsafeCause) == WriteFailure || old(sensorFailCount) + 1 < m.sensorLimit then old(failsafeCause) else SensorLoss
    {
      sensorFailCount := sensorFailCount + 1;
      var limit := cfg.fan.SensorLimit();
      if sensorFailCount >= limit {
        EnterFailsafe(SensorLoss, ok);
      }
    }

    method HandleWriteFailure(ok: bool)
      modifies this`bmc, this`restoreConfirmed, this`failsafeCause, this`writeFailCount
      ensures Abs() == WriteFailed(cfg, old(Abs()), ok)
      ensures forall m: Config.Settings {:trigger Config.Means(cfg.fan, m)} :: Config.Means(cfg.fan, m) ==>
        failsafeCause == if old(writeFailCount) + 1 < m.writeLimit then old(failsafeCause) else WriteFailure
    {
      writeFailCount := writeFailCount + 1;
      var limit := cfg.fan.WriteLimit();
      if writeFailCount >= limit {
        EnterFailsafe(WriteFailure, ok);
      }
    }

    method ClearFailsafe()
      modifies this`failsafeCause, this`restoreConfirmed, this`sensorFailCount, this`writeFailCount
      ensures Abs() == old(Abs()).(fs := Cleared)
    {
      failsafeCause := NoFailsafe;
      restoreConfirmed := false;
      sensorFailCount := 0;
      writeFailCount := 0;
    }

    // ----- Recording a reading -----

    method TrimHistory(cutoff: Time)
      modifies this`cpuHistory, this`gpuHistory
      ensures cpuHistory == History.After(old(cpuHistory), cutoff)
      ensures gpuHistory == History.After(old(gpuHistory), cutoff)
    {
      cpuHistory := Trimmed(cpuHistory, cutoff);
      gpuHistory := Trimmed(gpuHistory, cutoff);
    }

    /** Both histories are trimmed by the same loop. */
    static method Trimmed(points: seq<History.Point>, cutoff: Time) returns (kept: seq<History.Point>)
      ensures kept == History.After(points, cutoff)
    {
      kept := [];
      for n := 0 to |points|
        invariant kept == History.After(points[..n], cutoff)
      {
        assert points[..n + 1] == points[..n] + [points[n]];
        History.AfterSnoc(points[..n], points[n], cutoff);
        if points[n].at > cutoff {
          kept := kept + [points[n]];
        }
      }
      assert points[..|points|] == points;
    }

    method CleanExpired(now: Time)
      modifies this`hints, this`override
      ensures Store.Store(hints, override) == Store.Clean(old(Store.Store(hints, override)), now)
    {
      ghost var before := hints;
      var todo := hints.Keys;
      while todo != {}
        invariant todo <= before.Keys
        invariant override == old(override)
        invariant hints == map source | source in before && (source in todo || !before[source].ExpiredAt(now)) :: before[source]
        decreases todo
      {
        var source :| source in todo;
        todo := todo - {source};
        if hints[source].ExpiredAt(now) {
          hints := hints - {source};
        }
      }
      if override.Some? && override.value.ExpiredAt(now) {
        override := None;
      }
    }

    method RecordReadings(r: Reading, clock: Clock)
      modifies this`lastReading, this`cpuHistory, this`gpuHistory, this`hints, this`override
      ensures Abs() == Record(cfg, old(Abs()), r, clock)
    {
      hide History.After, Store.Unexpired;
      lastReading := Some(r);
      cpuHistory := cpuHistory + [History.Point(r.cpuMax, clock.reading)];
      gpuHistory := gpuHistory + [History.Point(r.gpuMax, clock.reading)];
      TrimHistory(clock.trim - cfg.historyRetention * SECOND);
      CleanExpired(clock.clean);
    }

    // ----- The decision -----

    method CalculateTarget(r: Reading, now: Time) returns (target: int)
      modifies this`targetSpeed, this`currentZone, this`lastOverThreshold
      ensures Abs() == Decide(cfg, old(Abs()), r, now) && target == targetSpeed
      ensures r.cpuMax >= cfg.fan.criticalCPUTemp || r.gpuMax >= cfg.fan.criticalGPUTemp ==>
        target == if 1 <= cfg.fan.maxSpeed <= 100 then cfg.fan.maxSpeed else 100
      ensures r.cpuMax < cfg.fan.criticalCPUTemp && r.gpuMax < cfg.fan.criticalGPUTemp && override.Some?
              && cfg.fan.minSpeed <= cfg.fan.maxSpeed ==>
        target == Within(cfg.fan.minSpeed, cfg.fan.maxSpeed, override.value.speed)
    {
      hide Store.Floor, SpeedLaw.Needed, SpeedLaw.Cooled, SpeedRuns.Warm, SpeedRuns.InTheNthFive, Config.Means;
      var fc := cfg.fan;
      if fc.IsCritical(r) {
        var speed := fc.maxSpeed;
        if speed <= 0 || speed > 100 {
          speed := 100;
        }
        currentZone := "critical";
        targetSpeed := speed;
        return speed;
      }

      if override.Some? {
        var speed := fc.Clamp(override.value.speed);
        targetSpeed := speed;
        return speed;
      }

      var hintMinSpeed := HintMinSpeed();
      var overThreshold := fc.OverThreshold(r);

      if r.cpuMax > 80 || r.gpuMax > 85 {
        currentZone := "hot";
      } else if r.cpuMax > 70 || r.gpuMax > 75 {
        currentZone := "warm";
      } else if overThreshold {
        currentZone := "active";
      } else {
        currentZone := "idle";
      }

      if overThreshold {
        lastOverThreshold := Some(now);
        target := RampUp(r);
      } else {
        target := CoolDown(now);
        assert target == SpeedLaw.Ramp(fc, Abs().drive, r, now);
      }
      assert target == SpeedLaw.Ramp(fc, old(Abs().drive), r, now);
      assert hintMinSpeed == Store.Floor(old(hints));

      if hintMinSpeed > target {
        target := hintMinSpeed;
      }
      target := Max(fc.minSpeed, Min(fc.maxSpeed, target));
      targetSpeed := target;
    }

    /** The over-threshold branch: a step towards the speed the excess calls for. */
    method RampUp(r: Reading) returns (target: int)
      ensures forall m: Config.Settings, n: nat {:trigger SpeedRuns.InTheNthFive(m, r, n), Config.Means(cfg.fan, m)} ::
        Config.Means(cfg.fan, m) && SpeedRuns.Warm(cfg.fan, m, r) && SpeedRuns.InTheNthFive(m, r, n) && 0 <= m.step ==>
          target == Max(currentSpeed, Min(currentSpeed + m.step, m.idle + n * m.step))
      ensures forall d: SpeedLaw.Drive, now: Time {:trigger SpeedLaw.Ramp(cfg.fan, d, r, now)} ::
        cfg.fan.OverThreshold(r) && d.current == currentSpeed ==> target == SpeedLaw.Ramp(cfg.fan, d, r, now)
    {
      var fc := cfg.fan;
      var baseSpeed := if fc.idleSpeed == 0 then Config.DEFAULT_IDLE_SPEED else fc.idleSpeed;
      var stepSize := if fc.stepSize == 0 then Config.DEFAULT_STEP_SIZE else fc.stepSize;
      var cpuOver := Max(0, r.cpuMax - fc.EffectiveCPUThreshold());
      var gpuOver := Max(0, r.gpuMax - fc.EffectiveGPUThreshold());
      var maxOver := Max(cpuOver, gpuOver);
      var stepsNeeded := maxOver / 5 + 1;
      var neededSpeed := baseSpeed + stepsNeeded * stepSize;
      assert neededSpeed == SpeedLaw.Needed(fc, r);
      forall m: Config.Settings, n: nat
        | Config.Means(fc, m) && SpeedRuns.Warm(fc, m, r) && SpeedRuns.InTheNthFive(m, r, n)
        ensures neededSpeed == m.idle + n * m.step && stepSize == m.step
      {
        SpeedRuns.NeededByTheDegree(fc, m, r, n);
      }
      hide SpeedLaw.Needed, SpeedLaw.MaxOver, SpeedRuns.InTheNthFive, SpeedRuns.Warm, Config.Means;
      target := currentSpeed;
      if neededSpeed > target {
        target := Min(target + stepSize, neededSpeed);
      }
    }

    /** The below-threshold branch: base speed, a step down, or hold until the cooldown is over. */
    method CoolDown(now: Time) returns (target: int)
      ensures forall r: Reading {:trigger SpeedLaw.Ramp(cfg.fan, Abs().drive, r, now)} ::
        !cfg.fan.OverThreshold(r) ==> target == SpeedLaw.Ramp(cfg.fan, Abs().drive, r, now)
    {
      var fc := cfg.fan;
      var baseSpeed := if fc.idleSpeed == 0 then Config.DEFAULT_IDLE_SPEED else fc.idleSpeed;
      var stepSize := if fc.stepSize == 0 then Config.DEFAULT_STEP_SIZE else fc.stepSize;
      var cooldownDuration := fc.cooldownDelay * SECOND;
      if cooldownDuration == 0 {
        cooldownDuration := Config.DEFAULT_COOLDOWN;
      }
      target := currentSpeed;
      if lastOverThreshold.None? {
        target := baseSpeed;
      } else if now - lastOverThreshold.value > cooldownDuration {
        if target > baseSpeed {
          target := target - stepSize;
          if target < baseSpeed {
            target := baseSpeed;
          }
        } else {
          target := baseSpeed;
        }
      }
    }

    /** The highest floor any hint sets, whatever the order the map is visited in. */
    method HintMinSpeed() returns (floor: int)
      ensures floor == Store.Floor(hints)
    {
      floor := 0;
      var todo := hints.Keys;
      while todo != {}
        invariant todo <= hints.Keys && 0 <= floor
        invariant forall source <- hints :: source !in todo ==> hints[source].minFanSpeed <= floor
        invariant floor == 0 || exists source <- hints :: source !in todo && hints[source].minFanSpeed == floor
        decreases todo
      {
        var source :| source in todo;
        if hints[source].minFanSpeed > floor {
          floor := hints[source].minFanSpeed;
        }
        todo := todo - {source};
      }
      Store.FloorUnique(hints, floor, Store.Floor(hints));
    }

    // ----- One tick, and the loop around it -----

    method ControlLoop(i: Input)
      modifies this
      ensures Abs() == TickStep(cfg, old(Abs()), i)
      ensures old(FailSafe.Inv(cfg, Abs())) ==> FailSafe.Inv(cfg, Abs())
    {
      hide SpeedLaw.Decide, Sense, FailSafe.Inv;
      ghost var s := Abs();
      var proceed := SenseAndRecord(i);
      ServeCalls(i.between);
      if proceed {
        var target := CalculateTarget(i.read.value, i.clock.decide);
        var failed := SetFanSpeed(target, i.writeOk);
        if failed {
          HandleWriteFailure(i.handBackOk);
        } else {
          writeFailCount := 0;
        }
      }
      if FailSafe.Inv(cfg, s) {
        FailSafe.InvStep(cfg, s, Tick(i));
      }
    }

    /** The tick up to the decision. */
    method SenseAndRecord(i: Input) returns (proceed: bool)
      modifies this
      ensures Abs() == Sense(cfg, old(Abs()), i).state
      ensures proceed == Sense(cfg, old(Abs()), i).decides.Some?
      ensures proceed ==> Sense(cfg, old(Abs()), i).decides == i.read
    {
      EnsureAutoRestored(i.retryOk);
      if failsafeCause == WriteFailure {
        if i.read.Some? {
          RecordReadings(i.read.value, i.clock);
        }
        return false;
      }
      if i.read.None? {
        HandleSensorFailure(i.handBackOk);
        return false;
      }
      if sensorFailCount > 0 {
        sensorFailCount := 0;
      }
      if failsafeCause == SensorLoss {
        if !restoreConfirmed {
          RecordReadings(i.read.value, i.clock);
          return false;
        }
        var failed := EnableManualMode(i.reclaimOk);
        if failed {
          return false;
        }
        ClearFailsafe();
      }
      RecordReadings(i.read.value, i.clock);
      return true;
    }

    /** API calls from other goroutines, in the order they take the lock. */
    method ServeCalls(calls: seq<Store.Command>)
      modifies this`hints, this`override
      ensures Abs() == CallAll(cfg, old(Abs()), calls)
    {
      for n := 0 to |calls|
        invariant Abs() == CallAll(cfg, old(Abs()), calls[..n])
      {
        assert calls[..n + 1][..n] == calls[..n];
        Serve(calls[n]);
      }
      assert calls[..|calls|] == calls;
    }

    method Serve(c: Store.Command)
      modifies this`hints, this`override
      ensures Abs() == CallStep(cfg, old(Abs()), c)
    {
      match c
      case AddHint(source, intensity, expiresAt, now) => AddHint(source, intensity, expiresAt, now);
      case RemoveHint(source) => RemoveHint(source);
      case SetOverride(speed, duration, reason, now, later) => SetOverride(speed, duration, reason, now, later);
      case ClearOverride => ClearOverride();
    }

    /** Manual mode, a first tick, then a tick whenever the ticker wins the select, until the stop channel
        does. API calls come from other goroutines. `wakes` is the order in which all this happens. */
    method Run(enabled: bool, first: Input, wakes: seq<Wake>) returns (returned: bool)
      modifies this
      ensures Abs() == Control.Run(cfg, old(Abs()).(bmc := old(bmc).Execute(EnableManual, enabled)), [Tick(first)] + EventsOf(wakes))
      ensures returned <==> StopClosed in wakes
    {
      hide TickStep, FailSafe.Inv;
      var failed := EnableManualMode(enabled);
      ghost var s, later, es := Abs(), EventsOf(wakes), [Tick(first)] + EventsOf(wakes);
      ControlLoop(first);
      RunSnoc(cfg, s, [], Tick(first));
      assert [] + [Tick(first)] == es[..1];
      for n := 0 to |wakes|
        invariant n <= |later| && forall k :: 0 <= k < n ==> wakes[k] != StopClosed
        invariant Abs() == Control.Run(cfg, s, es[..n + 1])
      {
        match wakes[n] {
          case TickerFired(i) => ControlLoop(i);
          case ApiCalled(c) => Serve(c);
          case StopClosed =>
            assert es[..n + 1] == es;
            return true;
        }
        RunSnoc(cfg, s, es[..n + 1], later[n]);
        assert es[..n + 2] == es[..n + 1] + [later[n]];
      }
      assert es[..|later| + 1] == es;
      returned := false;
    }

    // ----- API -----

    method AddHint(source: string, intensity: string, expiresAt: Option<Time>, now: Time)
      modifies this`hints
      ensures hints == old(hints)[source := Store.Registered(Store.AddHint(source, intensity, expiresAt, now))]
      ensures hints[source] == Store.Hint(source, intensity,
        if intensity == "high" then 45 else if intensity == "low" then 15 else 25, now, expiresAt)
    {
      var minFanSpeed: int;
      if intensity == "high" {
        minFanSpeed := 45;
      } else if intensity == "medium" {
        minFanSpeed := 25;
      } else if intensity == "low" {
        minFanSpeed := 15;
      } else {
        minFanSpeed := 25;
      }
      hints := hints[source := Store.Hint(source, intensity, minFanSpeed, now, expiresAt)];
    }

    method RemoveHint(source: string)
      modifies this`hints
      ensures hints == old(hints) - {source}
    {
      hints := hints - {source};
    }

    method SetOverride(speed: int, duration: Time, reason: string, now: Time, later: Time)
      modifies this`override
      ensures override == Some(Store.Overriding(cfg.fan, Store.SetOverride(speed, duration, reason, now, later)))
      ensures override.value.expiresAt == later + if 0 < duration <= 86_400_000_000_000 then duration else 86_400_000_000_000
      ensures cfg.fan.minSpeed <= cfg.fan.maxSpeed ==>
        override.value.speed == Within(cfg.fan.minSpeed, cfg.fan.maxSpeed, speed)
    {
      var bounded := duration;
      if duration <= 0 || duration > Store.MAX_OVERRIDE_DURATION {
        bounded := Store.MAX_OVERRIDE_DURATION;
      }
      var clamped := cfg.fan.Clamp(speed);
      override := Some(Store.Override(clamped, reason, now, later + bounded));
    }

    method ClearOverride()
      modifies this`override
      ensures override == None
    {
      override := None;
    }

    static ghost function SourcesOf(hints: map<string, Store.Hint>, h: Store.Hint): set<string> {
      set source | source in hints && hints[source] == h
    }

    /** The list holds the hint of every source, once, in any order. */
    static ghost predicate ListsEach(list: seq<Store.Hint>, hints: map<string, Store.Hint>) {
      forall h :: multiset(list)[h] == |SourcesOf(hints, h)|
    }

    method ActiveHints() returns (list: seq<Store.Hint>)
      ensures ListsEach(list, hints)
    {
      assert ListsEach([], map[]);
      hide ListsEach;
      list := [];
      var todo := hints.Keys;
      ghost var seen: map<string, Store.Hint> := map[];
      while todo != {}
        invariant todo <= hints.Keys && seen.Keys == hints.Keys - todo
        invariant forall source <- seen :: seen[source] == hints[source]
        invariant ListsEach(list, seen)
        decreases |todo|
      {
        var source :| source in todo;
        ListOneMore(list, seen, source, hints[source]);
        list := list + [hints[source]];
        seen := seen[source := hints[source]];
        todo := todo - {source};
      }
      assert seen == hints;
    }

    static lemma ListOneMore(list: seq<Store.Hint>, seen: map<string, Store.Hint>, source: string, h: Store.Hint)
      requires ListsEach(list, seen) && source !in seen
      ensures ListsEach(list + [h], seen[source := h])
    {
      hide SourcesOf;
      forall x ensures multiset(list + [h])[x] == |SourcesOf(seen[source := h], x)| {
        OneMoreSource(seen, source, h, x);
      }
    }

    static lemma OneMoreSource(seen: map<string, Store.Hint>, source: string, h: Store.Hint, x: Store.Hint)
      requires source !in seen
      ensures |SourcesOf(seen[source := h], x)| == |SourcesOf(seen, x)| + if x == h then 1 else 0
    {
      assert SourcesOf(seen[source := h], x) == SourcesOf(seen, x) + if x == h then {source} else {};
    }

    /** The slope of one history over the last minute. */
    static method CalculateTrend(points: seq<History.Point>, now: Time) returns (trend: real)
      ensures History.IsTrend(points, now, trend)
    {
      if |points| < 2 {
        assert |History.After(points, now - MINUTE)| < 2 by {
          AfterIsShorter(points, now - MINUTE);
        }
        return 0.0;
      }
      var recent := Trimmed(points, now - MINUTE);
      if |recent| < 2 {
        return 0.0;
      }
      var first, last := recent[0], recent[|recent| - 1];
      var duration := (last.at - first.at) as real / MINUTE as real;
      if duration < 0.1 {
        return 0.0;
      }
      trend := (last.temp - first.temp) as real / duration;
      SlopeTimesSpan((last.temp - first.temp) as real, (last.at - first.at) as real, MINUTE as real);
    }

    static lemma {:induction false} AfterIsShorter(points: seq<History.Point>, cutoff: Time)
      ensures |History.After(points, cutoff)| <= |points|
      decreases |points|
    {
      if points != [] {
        AfterIsShorter(points[..|points| - 1], cutoff);
      }
    }

    static lemma SlopeTimesSpan(change: real, span: real, unit: real)
      requires span > 0.0 && unit > 0.0
      ensures span / unit > 0.0 && change / (span / unit) * span == change * unit
    {
      var duration := span / unit;
      assert duration * unit == span;
      assert change / duration * duration == change;
    }

    /** What the API reports; between ticks a confirmed fail-safe is reported only with the BMC in auto. */
    method GetStatus(now: Time, cpuNow: Time, gpuNow: Time) returns (st: Status)
      ensures st.timestamp == now && st.zones == cfg.zones
      ensures History.IsTrend(cpuHistory, cpuNow, st.cpuTrend) && History.IsTrend(gpuHistory, gpuNow, st.gpuTrend)
      ensures st.reading == Abs().lastReading
      ensures SpeedLaw.Drive(st.currentSpeed, st.targetSpeed, st.zone, lastOverThreshold) == Abs().drive
      ensures ListsEach(st.activeHints, hints) && st.override == override
      ensures forall r: Reading :: r.cpuMax > st.cpuThreshold || r.gpuMax > st.gpuThreshold <==> cfg.fan.OverThreshold(r)
      ensures st.idleSpeed == cfg.fan.idleSpeed
      ensures st.mode == if override.Some? then "override" else if hints != map[] then "hinted" else "auto"
      ensures st.failsafeActive == Abs().fs.Active() && st.restorePending == Abs().fs.RestorePending()
      ensures st.failsafeReason == (match failsafeCause
                                    case NoFailsafe => "none"
                                    case SensorLoss => "sensor-loss"
                                    case WriteFailure => "write-failure")
      ensures st.lastWriteFailed == lastWriteFailed
      ensures FailSafe.Inv(cfg, Abs()) && st.failsafeActive && !st.restorePending ==> bmc.mode == Auto
    {
      var activeHints := ActiveHints();
      var mode := "auto";
      if override.Some? {
        mode := "override";
      } else if |hints| > 0 {
        mode := "hinted";
      }
      var reason := match failsafeCause
        case SensorLoss => "sensor-loss"
        case WriteFailure => "write-failure"
        case NoFailsafe => "none";
      var cpuTrend := CalculateTrend(cpuHistory, cpuNow);
      var gpuTrend := CalculateTrend(gpuHistory, gpuNow);
      st := Status(now, cpuTrend, gpuTrend, cfg.zones, lastReading, currentSpeed, targetSpeed, currentZone, mode, activeHints, override,
                   cfg.fan.EffectiveCPUThreshold(), cfg.fan.EffectiveGPUThreshold(), cfg.fan.idleSpeed,
                   failsafeCause != NoFailsafe, reason,
                   failsafeCause != NoFailsafe && !restoreConfirmed, lastWriteFailed);
    }
  }
}
