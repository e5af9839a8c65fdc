/** The speed law over whole runs: closed forms, hysteresis, the cooldown promise, hotter against cooler. */
module SpeedRuns {
  import opened Basics
  import opened Bmc
  import opened Control
  import opened SpeedLaw
  import opened Trajectories
  import Config
  import History
  import Store

  // ----- Steady runs follow the pure trajectory of the speed law -----

  /** In control, nothing overriding: only the readings and the clock still matter. */
  ghost predicate InControl(s: State) {
    s.fs.cause.NoFailsafe? && s.store.override.None?
  }

  /** A tick with healthy sensors, an acknowledged write, no calls, and no hint running out. */
  ghost predicate SteadyTick(st: Store.Store, e: Event) {
    && e.Tick? && e.input.read.Some? && e.input.writeOk && e.input.between == []
    && Store.Unexpired(st.hints, e.input.clock.clean) == st.hints
  }

  ghost predicate SteadyRun(st: Store.Store, es: seq<Event>) {
    forall k :: 0 <= k < |es| ==> SteadyTick(st, es[k])
  }

  function BeatOf(e: Event): Beat
    requires e.Tick? && e.input.read.Some?
  {
    Beat(e.input.read.value, e.input.clock.decide)
  }

  function Beats(es: seq<Event>): (bs: seq<Beat>)
    requires forall k :: 0 <= k < |es| ==> es[k].Tick? && es[k].input.read.Some?
  {
    seq(|es|, k requires 0 <= k < |es| => BeatOf(es[k]))
  }

  lemma SteadyStep(cfg: Config.Config, s: State, e: Event)
    requires InControl(s) && SteadyTick(s.store, e)
    ensures var s' := Step(cfg, s, e);
            InControl(s') && s'.store == s.store
            && s'.drive == Follow(cfg.fan, s.drive, Store.Floor(s.store.hints), BeatOf(e))
  {
    hide SpeedLaw.Decide;
  }

  /** The controller, with everything going well, is the speed law and nothing else. */
  lemma {:induction false} SteadyRunIsTrajectory(cfg: Config.Config, s: State, es: seq<Event>)
    requires InControl(s) && SteadyRun(s.store, es)
    ensures var s' := Run(cfg, s, es);
            InControl(s') && s'.store == s.store
            && s'.drive == Trajectory(cfg.fan, s.drive, Store.Floor(s.store.hints), Beats(es))
    decreases |es|
  {
    hide Step, Follow;
    if es != [] {
      var init, e := es[..|es| - 1], es[|es| - 1];
      SteadyRunIsTrajectory(cfg, s, init);
      SteadyStep(cfg, Run(cfg, s, init), e);
      assert Beats(es)[..|es| - 1] == Beats(init);
    }
  }

  // ----- Closed forms -----

  ghost predicate ConstantReading(es: seq<Event>, r: Reading) {
    forall k :: 0 <= k < |es| ==> es[k].Tick? && es[k].input.read == Some(r)
  }

  /** Under a constant over-threshold, non-critical reading the speed after k ticks has a closed form. */
  lemma RampUpClosedForm(cfg: Config.Config, s: State, es: seq<Event>, r: Reading)
    requires cfg.fan.Ramps() && cfg.fan.OverThreshold(r) && !cfg.fan.IsCritical(r)
    requires InControl(s) && SteadyRun(s.store, es) && ConstantReading(es, r)
    requires cfg.fan.Clamp(Store.Floor(s.store.hints)) <= s.drive.current <= cfg.fan.maxSpeed
    ensures Run(cfg, s, es).drive.current == RampUpSpeed(cfg.fan, s.drive.current, r, |es|)
  {
    hide Step, RampUpSpeed, Trajectory, Run;
    SteadyRunIsTrajectory(cfg, s, es);
    RampUpTrajectory(cfg.fan, s.drive, Store.Floor(s.store.hints), Beats(es), r);
  }

  /** The ramp arrives within the rounded-up number of steps, and stays. */
  lemma RampUpSettles(cfg: Config.Config, s: State, es: seq<Event>, r: Reading)
    requires cfg.fan.Ramps() && cfg.fan.OverThreshold(r) && !cfg.fan.IsCritical(r)
    requires InControl(s) && SteadyRun(s.store, es) && ConstantReading(es, r)
    requires cfg.fan.Clamp(Store.Floor(s.store.hints)) <= s.drive.current <= cfg.fan.maxSpeed
    requires |es| >= TicksFor(Min(cfg.fan.maxSpeed, Needed(cfg.fan, r)) - s.drive.current, cfg.fan.Step())
    ensures Run(cfg, s, es).drive.current == Max(s.drive.current, Min(cfg.fan.maxSpeed, Needed(cfg.fan, r)))
  {
    hide Step, RampUpSpeed, TicksFor, Needed, Run;
    RampUpClosedForm(cfg, s, es, r);
    RampUpReaches(cfg.fan, s.drive.current, r, |es|);
  }

  ghost predicate AllCooled(fc: Config.FanControl, lastOver: Option<Time>, es: seq<Event>) {
    forall k :: 0 <= k < |es| && es[k].Tick? ==> Cooled(fc, lastOver, es[k].input.clock.decide)
  }

  /** Below the thresholds and after the cooldown: down a step a tick, never past the rest speed. */
  lemma RampDownClosedForm(cfg: Config.Config, s: State, es: seq<Event>, r: Reading)
    requires cfg.fan.Ramps() && !cfg.fan.OverThreshold(r)
    requires InControl(s) && SteadyRun(s.store, es) && ConstantReading(es, r)
    requires AllCooled(cfg.fan, s.drive.lastOver, es)
    requires s.drive.current <= cfg.fan.maxSpeed && |es| > 0
    ensures Run(cfg, s, es).drive.current
         == RampDownSpeed(cfg.fan, Store.Floor(s.store.hints), s.drive.current, |es|)
  {
    hide Step, RampDownSpeed, Trajectory, Run;
    SteadyRunIsTrajectory(cfg, s, es);
    RampDownTrajectory(cfg.fan, s.drive, Store.Floor(s.store.hints), Beats(es), r);
  }

  /** Below the thresholds and never over them: the rest speed in a single tick. */
  lemma NeverHotGoesStraightToRest(cfg: Config.Config, s: State, e: Event)
    requires cfg.fan.Safe() && InControl(s) && SteadyTick(s.store, e) && s.drive.lastOver.None?
    requires !cfg.fan.OverThreshold(e.input.read.value)
    ensures Step(cfg, s, e).drive.current == RestSpeed(cfg.fan, Store.Floor(s.store.hints))
  {
    hide Step;
    SteadyStep(cfg, s, e);
  }

  // ----- The law in degrees, percent and seconds -----

  /** Over a threshold and below both critical temperatures. */
  ghost predicate Warm(fc: Config.FanControl, m: Config.Settings, r: Reading) {
    && (r.cpuMax > m.cpuThreshold || r.gpuMax > m.gpuThreshold)
    && r.cpuMax < fc.criticalCPUTemp && r.gpuMax < fc.criticalGPUTemp
  }

  ghost predicate Cool(m: Config.Settings, r: Reading) {
    r.cpuMax <= m.cpuThreshold && r.gpuMax <= m.gpuThreshold
  }

  /** The hotter excess is in the n-th five degrees over its threshold. */
  ghost predicate InTheNthFive(m: Config.Settings, r: Reading, n: nat) {
    && n >= 1
    && r.cpuMax < m.cpuThreshold + 5 * n && r.gpuMax < m.gpuThreshold + 5 * n
    && (r.cpuMax >= m.cpuThreshold + 5 * (n - 1) || r.gpuMax >= m.gpuThreshold + 5 * (n - 1))
  }

  lemma NeededByTheDegree(fc: Config.FanControl, m: Config.Settings, r: Reading, n: nat)
    requires Config.Means(fc, m) && Warm(fc, m, r) && InTheNthFive(m, r, n)
    ensures Needed(fc, r) == m.idle + n * m.step
  {
    assert MaxOver(fc, r) / 5 + 1 == n;
  }

  /** Ramping up: a step a tick, to idle plus one step for every five degrees begun. */
  lemma RampUpByTheDegree(cfg: Config.Config, m: Config.Settings, s: State, es: seq<Event>, r: Reading, n: nat)
    requires cfg.fan.Ramps() && Config.Means(cfg.fan, m) && Warm(cfg.fan, m, r) && InTheNthFive(m, r, n)
    requires InControl(s) && SteadyRun(s.store, es) && ConstantReading(es, r)
    requires forall source <- s.store.hints :: s.store.hints[source].minFanSpeed <= s.drive.current
    requires 0 <= cfg.fan.minSpeed <= s.drive.current <= cfg.fan.maxSpeed
    ensures var now, top := s.drive.current, Min(cfg.fan.maxSpeed, m.idle + n * m.step);
      && Run(cfg, s, es).drive.current == Max(now, Min(top, now + |es| * m.step))
      && (now + |es| * m.step >= top ==> Run(cfg, s, es).drive.current == Max(now, top))
  {
    NeededByTheDegree(cfg.fan, m, r, n);
    hide Run, Needed;
    assert Store.IsFloor(s.store.hints, Store.Floor(s.store.hints));
    RampUpClosedForm(cfg, s, es, r);
  }

  /** Cooling down after the cooldown: a step a tick, to idle or what a hint asks for, within the limits. */
  lemma CoolDownByTheStep(cfg: Config.Config, m: Config.Settings, s: State, es: seq<Event>, r: Reading, floor: int)
    requires cfg.fan.Ramps() && Config.Means(cfg.fan, m) && Cool(m, r) && Store.IsFloor(s.store.hints, floor)
    requires InControl(s) && SteadyRun(s.store, es) && ConstantReading(es, r) && es != []
    requires s.drive.lastOver.Some? && s.drive.current <= cfg.fan.maxSpeed
    requires forall k :: 0 <= k < |es| && es[k].Tick? ==> es[k].input.clock.decide - s.drive.lastOver.value > m.cooldown
    ensures Run(cfg, s, es).drive.current
         == Max(Within(cfg.fan.minSpeed, cfg.fan.maxSpeed, Max(floor, m.idle)), s.drive.current - |es| * m.step)
  {
    hide Run;
    Store.FloorUnique(s.store.hints, floor, Store.Floor(s.store.hints));
    RampDownClosedForm(cfg, s, es, r);
  }

  /** A machine that was never hot goes there in one tick. */
  lemma RestsAtOnce(cfg: Config.Config, m: Config.Settings, s: State, e: Event, floor: int)
    requires cfg.fan.Safe() && Config.Means(cfg.fan, m) && Store.IsFloor(s.store.hints, floor)
    requires InControl(s) && SteadyTick(s.store, e) && Cool(m, e.input.read.value) && s.drive.lastOver.None?
    ensures Step(cfg, s, e).drive.current == Within(cfg.fan.minSpeed, cfg.fan.maxSpeed, Max(floor, m.idle))
  {
    hide Step;
    Store.FloorUnique(s.store.hints, floor, Store.Floor(s.store.hints));
    NeverHotGoesStraightToRest(cfg, s, e);
  }

  /** A cool machine above rest holds its speed up to the last instant of the cooldown, and not beyond. */
  lemma HoldsToTheSecond(cfg: Config.Config, m: Config.Settings, s: State, e: Event, floor: int)
    requires cfg.fan.Ramps() && Config.Means(cfg.fan, m) && Store.IsFloor(s.store.hints, floor)
    requires InControl(s) && SteadyTick(s.store, e) && Cool(m, e.input.read.value) && s.drive.lastOver.Some?
    requires Within(cfg.fan.minSpeed, cfg.fan.maxSpeed, Max(floor, m.idle)) < s.drive.current <= cfg.fan.maxSpeed
    ensures if e.input.clock.decide - s.drive.lastOver.value <= m.cooldown
            then Step(cfg, s, e).drive.current == s.drive.current
            else Step(cfg, s, e).drive.current < s.drive.current
  {
    hide Step;
    Store.FloorUnique(s.store.hints, floor, Store.Floor(s.store.hints));
    SteadyStep(cfg, s, e);
  }

  /** A tick that decides on a reading at a critical temperature asks for full speed, whatever else holds. */
  lemma EmergencyIsFull(cfg: Config.Config, s: State, i: Input, r: Reading)
    requires Sense(cfg, s, i).decides == Some(r)
    requires r.cpuMax >= cfg.fan.criticalCPUTemp || r.gpuMax >= cfg.fan.criticalGPUTemp
    ensures var d := TickStep(cfg, s, i).drive;
      && d.target == (if 1 <= cfg.fan.maxSpeed <= 100 then cfg.fan.maxSpeed else 100) && d.zone == "critical"
      && d.current == (if i.writeOk then d.target else s.drive.current) && d.lastOver == s.drive.lastOver
  {
    hide Sense, TickStep;
    TickDrive(cfg, s, i);
  }

  /** Otherwise an override in force when the tick decides gets its speed, within the limits, whatever the
      temperatures and hints. */
  lemma OverrideIsObeyed(cfg: Config.Config, s: State, i: Input, r: Reading, o: Store.Override)
    requires cfg.fan.minSpeed <= cfg.fan.maxSpeed
    requires Sense(cfg, s, i).decides == Some(r)
    requires r.cpuMax < cfg.fan.criticalCPUTemp && r.gpuMax < cfg.fan.criticalGPUTemp
    requires CallAll(cfg, Sense(cfg, s, i).state, i.between).store.override == Some(o)
    ensures var d := TickStep(cfg, s, i).drive;
      && d.target == Within(cfg.fan.minSpeed, cfg.fan.maxSpeed, o.speed) && d.zone == s.drive.zone
      && d.current == (if i.writeOk then d.target else s.drive.current) && d.lastOver == s.drive.lastOver
  {
    hide Sense, TickStep, CallAll;
    TickDrive(cfg, s, i);
  }

  /** Without emergency and override the zone on display is that of the reading: "active" is what is over a
      threshold short of 70 and 75 degrees. */
  lemma ZoneIsShown(cfg: Config.Config, m: Config.Settings, s: State, i: Input, r: Reading)
    requires Config.Means(cfg.fan, m) && Sense(cfg, s, i).decides == Some(r)
    requires r.cpuMax < cfg.fan.criticalCPUTemp && r.gpuMax < cfg.fan.criticalGPUTemp
    requires CallAll(cfg, Sense(cfg, s, i).state, i.between).store.override.None?
    ensures var zone := TickStep(cfg, s, i).drive.zone;
      && (zone == "hot" <==> r.cpuMax > 80 || r.gpuMax > 85)
      && (zone == "hot" || zone == "warm" <==> r.cpuMax > 70 || r.gpuMax > 75)
      && (zone == "active" <==> r.cpuMax <= 70 && r.gpuMax <= 75 && !Cool(m, r))
      && (zone == "idle" <==> r.cpuMax <= 70 && r.gpuMax <= 75 && Cool(m, r))
  {
    hide Sense, TickStep, CallAll, Ordinary;
    TickDrive(cfg, s, i);
  }

  // ----- Hysteresis over arbitrary runs without overrides -----

  ghost predicate Overrideless(e: Event) {
    match e
    case Tick(i) => forall c <- i.between :: !c.SetOverride?
    case Call(c) => !c.SetOverride?
  }

  ghost predicate NoOverrides(es: seq<Event>) {
    forall e <- es :: Overrideless(e)
  }

  lemma {:induction false} CallsKeepOverrideOut(fc: Config.FanControl, st: Store.Store, cs: seq<Store.Command>)
    requires st.override.None? && forall c <- cs :: !c.SetOverride?
    ensures Store.ApplyAll(fc, st, cs).override.None?
    decreases |cs|
  {
    if cs != [] {
      CallsKeepOverrideOut(fc, st, cs[..|cs| - 1]);
      assert cs[|cs| - 1] in cs;
    }
  }

  /** What a tick without overrides can do to the speed and the cooldown clock. */
  lemma TickMoves(cfg: Config.Config, s: State, i: Input)
    requires cfg.fan.Ramps() && s.store.override.None? && Overrideless(Tick(i))
    ensures var s' := TickStep(cfg, s, i);
      && s'.store.override.None?
      && (s.drive.current >= cfg.fan.Clamp(cfg.fan.BaseSpeed()) ==> s'.drive.current >= cfg.fan.Clamp(cfg.fan.BaseSpeed()))
      && (s'.drive.lastOver == s.drive.lastOver || s'.drive.lastOver == Some(i.clock.decide))
      && (s.drive.lastOver.Some? ==>
            && s'.drive.current >= Min(cfg.fan.maxSpeed, s.drive.current - cfg.fan.Step())
            && (i.clock.decide - s.drive.lastOver.value <= cfg.fan.Cooldown() ==>
                  s'.drive.current >= Min(cfg.fan.maxSpeed, s.drive.current)))
  {
    var sensed := Sense(cfg, s, i);
    assert sensed.state.store.override.None?;
    CallsKeepOverrideOut(cfg.fan, sensed.state.store, i.between);
    TickDrive(cfg, s, i);
    hide Sense, TickStep, SpeedLaw.Decide;
    if sensed.decides.Some? {
      var called, r, now := CallAll(cfg, sensed.state, i.between), sensed.decides.value, i.clock.decide;
      var floor := Store.Floor(called.store.hints);
      DecideFrame(cfg.fan, s.drive, floor, None, r, now);
      if s.drive.current >= cfg.fan.Clamp(cfg.fan.BaseSpeed()) {
        BaseIsKept(cfg.fan, s.drive, floor, r, now);
      }
      if s.drive.lastOver.Some? {
        DropsByAtMostAStep(cfg.fan, s.drive, floor, r, now);
        if now - s.drive.lastOver.value <= cfg.fan.Cooldown() {
          HoldsDuringCooldown(cfg.fan, s.drive, floor, r, now);
        }
      }
    }
  }

  lemma {:induction false} OverridesStayOut(cfg: Config.Config, s: State, es: seq<Event>)
    requires cfg.fan.Ramps() && s.store.override.None? && NoOverrides(es)
    ensures Run(cfg, s, es).store.override.None?
    decreases |es|
  {
    hide TickStep;
    if es != [] {
      OverridesStayOut(cfg, s, es[..|es| - 1]);
      assert es[|es| - 1] in es;
      if es[|es| - 1].Tick? {
        TickMoves(cfg, Run(cfg, s, es[..|es| - 1]), es[|es| - 1].input);
      }
    }
  }

  /** A speed that has reached base never falls below it again, whatever fails along the way. */
  lemma {:induction false} BaseNeverLost(cfg: Config.Config, s: State, es: seq<Event>)
    requires cfg.fan.Ramps() && s.store.override.None? && NoOverrides(es)
    requires s.drive.current >= cfg.fan.Clamp(cfg.fan.BaseSpeed())
    ensures Run(cfg, s, es).drive.current >= cfg.fan.Clamp(cfg.fan.BaseSpeed())
    decreases |es|
  {
    hide TickStep;
    if es != [] {
      BaseNeverLost(cfg, s, es[..|es| - 1]);
      OverridesStayOut(cfg, s, es[..|es| - 1]);
      assert es[|es| - 1] in es;
      if es[|es| - 1].Tick? {
        TickMoves(cfg, Run(cfg, s, es[..|es| - 1]), es[|es| - 1].input);
      }
    }
  }

  lemma OneMoreStep(n: nat, step: int)
    requires 0 <= step
    ensures 0 <= n * step && (n + 1) * step == n * step + step
  {
    MulMonotone(0, n, step);
  }

  /** Once a threshold has been crossed, n ticks lower the speed by at most n steps. */
  lemma {:induction false} SlewOverRuns(cfg: Config.Config, s: State, es: seq<Event>)
    requires cfg.fan.Ramps() && s.store.override.None? && NoOverrides(es) && s.drive.lastOver.Some?
    ensures Run(cfg, s, es).drive.lastOver.Some?
    ensures Run(cfg, s, es).drive.current >= Min(cfg.fan.maxSpeed, s.drive.current) - Ticks(es) * cfg.fan.Step()
    decreases |es|
  {
    hide TickStep;
    if es != [] {
      SlewOverRuns(cfg, s, es[..|es| - 1]);
      OverridesStayOut(cfg, s, es[..|es| - 1]);
      OneMoreStep(Ticks(es[..|es| - 1]), cfg.fan.Step());
      assert es[|es| - 1] in es;
      if es[|es| - 1].Tick? {
        TickMoves(cfg, Run(cfg, s, es[..|es| - 1]), es[|es| - 1].input);
      }
    }
  }

  /** Every decision falls between the last recorded crossing and the end of its cooldown. */
  ghost predicate WithinCooldown(fc: Config.FanControl, lastOver: Time, es: seq<Event>) {
    forall e <- es :: e.Tick? ==> lastOver <= e.input.clock.decide <= lastOver + fc.Cooldown()
  }

  /** No run of ticks inside the cooldown lowers the speed. */
  lemma {:induction false} CooldownHolds(cfg: Config.Config, s: State, es: seq<Event>)
    requires cfg.fan.Ramps() && s.store.override.None? && NoOverrides(es)
    requires s.drive.lastOver.Some? && WithinCooldown(cfg.fan, s.drive.lastOver.value, es)
    ensures var d := Run(cfg, s, es).drive;
            d.lastOver.Some? && d.lastOver.value >= s.drive.lastOver.value && d.current >= Min(cfg.fan.maxSpeed, s.drive.current)
    decreases |es|
  {
    hide TickStep;
    if es != [] {
      CooldownHolds(cfg, s, es[..|es| - 1]);
      OverridesStayOut(cfg, s, es[..|es| - 1]);
      assert es[|es| - 1] in es;
      if es[|es| - 1].Tick? {
        TickMoves(cfg, Run(cfg, s, es[..|es| - 1]), es[|es| - 1].input);
      }
    }
  }

  // ----- The documented cooldown promise, and exactly when the code keeps it -----

  /** A tick with a reading below the thresholds, at the end of which no override is in force. Hints may
      run out, be removed or be added. */
  ghost predicate CoolTick(cfg: Config.Config, s: State, i: Input) {
    && i.read.Some? && !cfg.fan.OverThreshold(i.read.value)
    && CallAll(cfg, Sense(cfg, s, i).state, i.between).store.override.None?
  }

  /** README.md: no ramping down until temperatures have stayed below the thresholds for the whole
      cooldown; `hot` is when a reading was last over one. */
  ghost predicate CooldownPromise(cfg: Config.Config, s: State, hot: Time) {
    forall i: Input :: CoolTick(cfg, s, i) && i.clock.decide - hot <= cfg.fan.Cooldown() ==>
      TickStep(cfg, s, i).drive.current >= Min(cfg.fan.maxSpeed, s.drive.current)
  }

  /** The speed is already where a cooled machine settles once its hints are gone; or so far above the
      limit that a step down does not come below it. */
  predicate NothingToLower(fc: Config.FanControl, d: Drive) {
    AtLowest(fc, d, 0)
  }

  /** The same with hints that ask for `floor`. */
  predicate AtLowest(fc: Config.FanControl, d: Drive, floor: int) {
    || Min(fc.maxSpeed, d.current) <= RestSpeed(fc, floor)
    || (d.lastOver.Some? && d.current - fc.Step() >= fc.maxSpeed)
  }

  lemma LoweredExactlyWhen(fc: Config.FanControl, d: Drive, floor: int, r: Reading, now: Time)
    requires fc.Ramps() && !fc.OverThreshold(r) && NotHolding(fc, d, now)
    ensures Target(fc, d, floor, None, r, now) >= Min(fc.maxSpeed, d.current) <==> AtLowest(fc, d, floor)
  {
  }

  /** A cool tick in terms of the speed law alone. */
  lemma CoolDecision(cfg: Config.Config, s: State, i: Input)
    requires CoolTick(cfg, s, i)
    ensures var floor := Store.Floor(CallAll(cfg, Sense(cfg, s, i).state, i.between).store.hints);
            TickStep(cfg, s, i).drive.current ==
              if Sense(cfg, s, i).decides.Some? && i.writeOk then Target(cfg.fan, s.drive, floor, None, i.read.value, i.clock.decide)
              else s.drive.current
  {
    TickDrive(cfg, s, i);
    hide SpeedLaw.Decide, TickStep, Sense, CallAll;
    var floor := Store.Floor(CallAll(cfg, Sense(cfg, s, i).state, i.between).store.hints);
    DecideFrame(cfg.fan, s.drive, floor, None, i.read.value, i.clock.decide);
  }

  lemma WhoDecides(cfg: Config.Config, s: State, i: Input)
    ensures s.fs.cause.WriteFailure? ==> Sense(cfg, s, i).decides.None?
    ensures !s.fs.cause.WriteFailure? && i.read.Some? && i.retryOk && i.reclaimOk ==> Sense(cfg, s, i).decides.Some?
    ensures Sense(cfg, s, i) == Sense(cfg, s, i.(between := []))
  {
    hide History.Record, Store.Clean;
  }

  /** API calls that remove these sources' hints. */
  lemma {:induction false} RemoveHints(fc: Config.FanControl, st: Store.Store, gone: set<string>) returns (cs: seq<Store.Command>)
    ensures Store.ApplyAll(fc, st, cs) == st.(hints := st.hints - gone)
  {
    cs := [];
    if gone != {} {
      var source :| source in gone;
      var init := RemoveHints(fc, st, gone - {source});
      cs := init + [Store.RemoveHint(source)];
      assert cs[..|cs| - 1] == init;
    }
  }

  /** API calls after which nothing but the thresholds and the cooldown counts. */
  lemma EmptyTheStore(fc: Config.FanControl, st: Store.Store) returns (cs: seq<Store.Command>)
    ensures Store.ApplyAll(fc, st, cs) == Store.Empty
  {
    var init := RemoveHints(fc, st, st.hints.Keys);
    cs := init + [Store.ClearOverride];
    assert cs[..|cs| - 1] == init;
  }

  /** A cool tick without hints, at the end of the cooldown of the last hot reading. */
  lemma BareTick(cfg: Config.Config, s: State, now: Time) returns (i: Input)
    requires cfg.fan.Ramps() && !s.fs.cause.WriteFailure?
    ensures CoolTick(cfg, s, i) && i.clock.decide == now
    ensures TickStep(cfg, s, i).drive.current == Target(cfg.fan, s.drive, 0, None, i.read.value, now)
  {
    hide TickStep, Sense, Target;
    var cool := Reading(cfg.fan.EffectiveCPUThreshold(), cfg.fan.EffectiveGPUThreshold());
    var bare := Input(Some(cool), Clock(now, now, now, now), true, true, true, true, []);
    var cs := EmptyTheStore(cfg.fan, Sense(cfg, s, bare).state.store);
    i := bare.(between := cs);
    assert i.(between := []) == bare;
    WhoDecides(cfg, s, i);
    CoolDecision(cfg, s, i);
    Store.FloorUnique(map[], Store.Floor(map[]), 0);
  }

  lemma NoHintsIsLowest(fc: Config.FanControl, d: Drive, floor: int)
    requires NothingToLower(fc, d) && 0 <= floor
    ensures AtLowest(fc, d, floor)
  {
  }

  /** In any state: kept if and only if the loop no longer decides, or the cooldown clock shows the last hot
      reading, or there is nothing to lower. */
  lemma PromiseKeptExactlyWhen(cfg: Config.Config, s: State, hot: Time)
    requires cfg.fan.Ramps() && NotAfter(s.drive, hot)
    ensures CooldownPromise(cfg, s, hot) <==>
      || s.fs.cause.WriteFailure?
      || s.drive.lastOver == Some(hot)
      || NothingToLower(cfg.fan, s.drive)
  {
    hide TickStep, Sense, CallAll, Target, AtLowest;
    var fc := cfg.fan;
    if s.fs.cause.WriteFailure? || s.drive.lastOver == Some(hot) || NothingToLower(fc, s.drive) {
      forall i: Input | CoolTick(cfg, s, i) && i.clock.decide - hot <= fc.Cooldown()
        ensures TickStep(cfg, s, i).drive.current >= Min(fc.maxSpeed, s.drive.current)
      {
        var floor := Store.Floor(CallAll(cfg, Sense(cfg, s, i).state, i.between).store.hints);
        WhoDecides(cfg, s, i);
        CoolDecision(cfg, s, i);
        if !NotHolding(fc, s.drive, i.clock.decide) {
          HoldsDuringCooldown(fc, s.drive, floor, i.read.value, i.clock.decide);
        } else if !s.fs.cause.WriteFailure? {
          NoHintsIsLowest(fc, s.drive, floor);
          LoweredExactlyWhen(fc, s.drive, floor, i.read.value, i.clock.decide);
        }
      }
    } else {
      var i := BareTick(cfg, s, hot + fc.Cooldown());
      LoweredExactlyWhen(fc, s.drive, 0, i.read.value, i.clock.decide);
    }
  }

  /** The latest over-threshold reading both sensors gave: when, and whether the ramp handled it. It did
      not if the emergency branch or an override decided, or if the tick ended before deciding. */
  datatype Crossing = Crossing(at: Time, ramped: bool)

  ghost predicate Ramped(cfg: Config.Config, s: State, i: Input) {
    var sensed := Sense(cfg, s, i);
    && sensed.decides.Some?
    && !cfg.fan.IsCritical(sensed.decides.value)
    && CallAll(cfg, sensed.state, i.between).store.override.None?
  }

  ghost function LastCrossing(cfg: Config.Config, s: State, es: seq<Event>): Option<Crossing> {
    if es == [] then None
    else
      var before, e := Run(cfg, s, es[..|es| - 1]), es[|es| - 1];
      if e.Call? || e.input.read.None? || !cfg.fan.OverThreshold(e.input.read.value) then
        LastCrossing(cfg, s, es[..|es| - 1])
      else if Ramped(cfg, before, e.input) then Some(Crossing(e.input.clock.decide, true))
      else Some(Crossing(e.input.clock.reading, false))
  }

  /** Readings precede the decisions on them, and each tick follows the one before. */
  ghost predicate ClockAdvances(es: seq<Event>) {
    && (forall k :: 0 <= k < |es| && es[k].Tick? ==> es[k].input.clock.reading <= es[k].input.clock.decide)
    && (forall j, k :: 0 <= j < k < |es| && es[j].Tick? && es[k].Tick? ==>
          es[j].input.clock.decide < es[k].input.clock.reading)
  }

  lemma {:induction false} CrossingInThePast(cfg: Config.Config, s: State, es: seq<Event>, now: Time)
    requires forall k :: 0 <= k < |es| && es[k].Tick? ==>
      es[k].input.clock.reading <= es[k].input.clock.decide < now
    ensures LastCrossing(cfg, s, es).Some? ==> LastCrossing(cfg, s, es).value.at < now
    decreases |es|
  {
    hide Ramped;
    if es != [] {
      CrossingInThePast(cfg, s, es[..|es| - 1], now);
    }
  }

  lemma ClockAfterTick(cfg: Config.Config, s: State, i: Input)
    ensures var clock := TickStep(cfg, s, i).drive.lastOver;
      if i.read.Some? && cfg.fan.OverThreshold(i.read.value) && Ramped(cfg, s, i)
      then clock == Some(i.clock.decide) else clock == s.drive.lastOver
  {
    hide Sense, TickStep, SpeedLaw.Decide;
    TickDrive(cfg, s, i);
    var sensed := Sense(cfg, s, i);
    if sensed.decides.Some? {
      var st := CallAll(cfg, sensed.state, i.between).store;
      DecideFrame(cfg.fan, s.drive, Store.Floor(st.hints), st.override, sensed.decides.value, i.clock.decide);
    }
  }

  /** The cooldown clock shows the latest crossing if the ramp handled it, and an older one (or none) if not. */
  lemma {:induction false} CooldownClock(cfg: Config.Config, s: State, es: seq<Event>)
    requires s.drive.lastOver.None? && ClockAdvances(es)
    ensures var last, clock := LastCrossing(cfg, s, es), Run(cfg, s, es).drive.lastOver;
      && (last.None? ==> clock.None?)
      && (last.Some? && last.value.ramped ==> clock == Some(last.value.at))
      && (last.Some? && !last.value.ramped && clock.Some? ==> clock.value < last.value.at)
    decreases |es|
  {
    hide Ramped, TickStep;
    if es != [] {
      var init, e := es[..|es| - 1], es[|es| - 1];
      CooldownClock(cfg, s, init);
      if e.Tick? {
        CrossingInThePast(cfg, s, init, e.input.clock.reading);
        ClockAfterTick(cfg, Run(cfg, s, init), e.input);
      }
    }
  }

  /** Over every run that has met a hot reading: the promise holds if and only if the write fail-safe has
      ended all decisions, or the ramp handled the latest crossing, or there is nothing to lower. */
  lemma PromiseOverRuns(cfg: Config.Config, s: State, es: seq<Event>)
    requires cfg.fan.Ramps() && s.drive.lastOver.None? && ClockAdvances(es) && LastCrossing(cfg, s, es).Some?
    ensures var last, s' := LastCrossing(cfg, s, es).value, Run(cfg, s, es);
            CooldownPromise(cfg, s', last.at) <==> s'.fs.cause.WriteFailure? || last.ramped || NothingToLower(cfg.fan, s'.drive)
  {
    hide Ramped, Step, CooldownPromise, NothingToLower, LastCrossing;
    CooldownClock(cfg, s, es);
    PromiseKeptExactlyWhen(cfg, Run(cfg, s, es), LastCrossing(cfg, s, es).value.at);
  }

  /** A tick at `at` seconds that meets a cooperative BMC, but for the answer to a reclaim. */
  function At(read: Option<Reading>, at: Time, reclaimOk: bool): Event {
    var t := at * SECOND;
    Tick(Input(read, Clock(t, t, t, t), true, reclaimOk, true, true, []))
  }

  /** A given speed, cooldown clock, store and fail-safe state. */
  ghost predicate Holding(s: State, speed: int, lastOver: Option<Time>, store: Store.Store, fs: Failsafe) {
    s.drive.current == speed && s.drive.lastOver == lastOver && s.store == store && s.fs == fs
  }

  lemma OverrideTo50(s: State) returns (es: seq<Event>)
    requires s == Boot(Auto, true)
    ensures |es| == 3 && es[0] == Call(Store.SetOverride(50, 0, "", -20 * SECOND, -20 * SECOND))
    ensures es[1] == At(Some(Reading(50, 50)), -10, true) && es[2] == Call(Store.ClearOverride)
    ensures Holding(Step(Config.DEFAULT, Step(Config.DEFAULT, Step(Config.DEFAULT, s, es[0]), es[1]), es[2]), 50, None, Store.Empty, Cleared)
  {
    var cfg := Config.DEFAULT;
    es := [Call(Store.SetOverride(50, 0, "", -20 * SECOND, -20 * SECOND)), At(Some(Reading(50, 50)), -10, true), Call(Store.ClearOverride)];
    var s1 := Step(cfg, s, es[0]);
    assert s1.store == Store.Store(map[], Some(Store.Override(50, "", -20 * SECOND, -20 * SECOND + DAY)));
    var s2 := Step(cfg, s1, es[1]);
    assert s2.drive == Drive(50, 50, "", None) && s2.fs == Cleared && s2.store == s1.store;
  }

  lemma WarmTick(s: State)
    requires Holding(s, 50, None, Store.Empty, Cleared)
    ensures Holding(Step(Config.DEFAULT, s, At(Some(Reading(66, 50)), 0, true)), 50, Some(0), Store.Empty, Cleared)
  {
  }

  lemma BlindStep(s: State, at: Time, n: nat)
    requires n < 3 && s.fs == Failsafe(NoFailsafe, false, n, 0)
    ensures var fs := if n < 2 then Failsafe(NoFailsafe, false, n + 1, 0) else Failsafe(SensorLoss, true, 3, 0);
            Holding(Step(Config.DEFAULT, s, At(None, at, true)), s.drive.current, s.drive.lastOver, s.store, fs)
  {
  }

  lemma RefusedTick(s: State)
    requires s.fs == Failsafe(SensorLoss, true, 3, 0)
    ensures var e := At(Some(Reading(80, 50)), 100, false);
            Holding(Step(Config.DEFAULT, s, e), s.drive.current, s.drive.lastOver, s.store, Failsafe(SensorLoss, true, 0, 0))
            && !Ramped(Config.DEFAULT, s, e.input)
  {
  }

  lemma RunSnoc3(cfg: Config.Config, s: State, es: seq<Event>, a: Event, b: Event, c: Event)
    ensures Run(cfg, s, es + [a, b, c]) == Step(cfg, Step(cfg, Step(cfg, Run(cfg, s, es), a), b), c)
  {
    hide Step, Run;
    var one, two, three := es + [a], es + [a, b], es + [a, b, c];
    assert one + [b] == two && two + [c] == three;
    RunSnoc(cfg, s, es, a);
    RunSnoc(cfg, s, one, b);
    RunSnoc(cfg, s, two, c);
  }

  predicate Early(es: seq<Event>) {
    forall k :: 0 <= k < |es| && es[k].Tick? ==> es[k].input.clock.decide <= 0
  }

  /** Three failed reads, then 80 degrees at 100 s in a tick whose reclaim is refused: the speed, the cooldown
      clock and the store stay as they were. */
  lemma MissedCrossing(early: seq<Event>) returns (es: seq<Event>)
    requires ClockAdvances(early) && Early(early) && Run(Config.DEFAULT, Boot(Auto, true), early).fs == Cleared
    ensures ClockAdvances(es) && LastCrossing(Config.DEFAULT, Boot(Auto, true), es) == Some(Crossing(100 * SECOND, false))
    ensures var s, s' := Run(Config.DEFAULT, Boot(Auto, true), early), Run(Config.DEFAULT, Boot(Auto, true), es);
            Holding(s', s.drive.current, s.drive.lastOver, s.store, Failsafe(SensorLoss, true, 0, 0))
  {
    hide Step, Ramped;
    var cfg, s0 := Config.DEFAULT, Boot(Auto, true);
    var s := Run(cfg, s0, early);
    var b1, b2, b3, refused := At(None, 10, true), At(None, 20, true), At(None, 30, true), At(Some(Reading(80, 50)), 100, false);
    BlindStep(s, 10, 0);
    BlindStep(Step(cfg, s, b1), 20, 1);
    BlindStep(Step(cfg, Step(cfg, s, b1), b2), 30, 2);
    RunSnoc3(cfg, s0, early, b1, b2, b3);
    var most := early + [b1, b2, b3];
    RefusedTick(Run(cfg, s0, most));
    RunSnoc(cfg, s0, most, refused);
    es := most + [refused];
    assert es[..|es| - 1] == most;
    hide Run, Holding;
  }

  lemma ReclaimedTick(s: State)
    requires Holding(s, 50, Some(0), Store.Empty, Failsafe(SensorLoss, true, 0, 0))
    ensures Step(Config.DEFAULT, s, At(Some(Reading(50, 50)), 110, true)).drive.current == 40
  {
    Store.FloorUnique(map[], Store.Floor(map[]), 0);
  }

  /** A breach that never shows an emergency or an override to the decision: at 50%, 66 degrees at 0 s, then
      the missed crossing. At 110 s the fans go down to 40%. */
  lemma RefusedReclaimHidesACrossing() returns (es: seq<Event>)
    ensures ClockAdvances(es) && Run(Config.DEFAULT, Boot(Auto, true), es).store == Store.Empty
    ensures LastCrossing(Config.DEFAULT, Boot(Auto, true), es) == Some(Crossing(100 * SECOND, false))
    ensures var s := Run(Config.DEFAULT, Boot(Auto, true), es);
            s.drive.current == 50 && Step(Config.DEFAULT, s, At(Some(Reading(50, 50)), 110, true)).drive.current == 40
  {
    hide Step, LastCrossing;
    var cfg, s0 := Config.DEFAULT, Boot(Auto, true);
    var first := OverrideTo50(s0);
    var warm := At(Some(Reading(66, 50)), 0, true);
    assert first == [] + [first[0], first[1], first[2]];
    RunSnoc3(cfg, s0, [], first[0], first[1], first[2]);
    WarmTick(Run(cfg, s0, first));
    RunSnoc(cfg, s0, first, warm);
    es := MissedCrossing(first + [warm]);
    ReclaimedTick(Run(cfg, s0, es));
  }

  const Job := Store.AddHint("job", "high", Some(105 * SECOND), -20 * SECOND)

  const WithJob := Store.Store(map["job" := Store.Registered(Job)], None)

  lemma FloorOfJob()
    ensures Store.Floor(WithJob.hints) == 45
  {
    assert WithJob.hints["job"].minFanSpeed == 45;
    assert Store.IsFloor(WithJob.hints, 45);
    Store.FloorUnique(WithJob.hints, Store.Floor(WithJob.hints), 45);
  }

  lemma AddJob(s: State)
    requires s == Boot(Auto, true)
    ensures Holding(Step(Config.DEFAULT, s, Call(Job)), 0, None, WithJob, Cleared)
  {
  }

  lemma JobIsRest()
    ensures RestSpeed(Config.DEFAULT_FAN, Store.Floor(WithJob.hints)) == 45
  {
    FloorOfJob();
  }

  lemma WarmTickWithJob(s: State)
    requires Holding(s, 0, None, WithJob, Cleared)
    ensures Holding(Step(Config.DEFAULT, s, At(Some(Reading(66, 50)), 0, true)), 45, Some(0), WithJob, Cleared)
  {
    FloorOfJob();
    assert Store.Unexpired(WithJob.hints, 0) == WithJob.hints;
  }

  lemma ReclaimedTickWithJob(s: State)
    requires Holding(s, 45, Some(0), WithJob, Failsafe(SensorLoss, true, 0, 0))
    ensures Step(Config.DEFAULT, s, At(Some(Reading(50, 50)), 110, true)).drive.current == 35
  {
    Store.FloorUnique(map[], Store.Floor(map[]), 0);
    assert Store.Unexpired(WithJob.hints, 110 * SECOND) == map[];
  }

  /** A hint that runs out lets the missed crossing show even at the speed the hint asked for: 45%, until
      the hint expires at 105 s; at 110 s the fans go down to 35%. */
  lemma ExpiringHintHidesACrossing() returns (es: seq<Event>)
    ensures ClockAdvances(es)
    ensures LastCrossing(Config.DEFAULT, Boot(Auto, true), es) == Some(Crossing(100 * SECOND, false))
    ensures var s := Run(Config.DEFAULT, Boot(Auto, true), es);
      && s.drive.current == 45 == RestSpeed(Config.DEFAULT_FAN, Store.Floor(s.store.hints))
      && Step(Config.DEFAULT, s, At(Some(Reading(50, 50)), 110, true)).drive.current == 35
  {
    hide LastCrossing, Step, Boot, RestSpeed;
    var cfg, s0 := Config.DEFAULT, Boot(Auto, true);
    var add, warm := Call(Job), At(Some(Reading(66, 50)), 0, true);
    RunSnoc(cfg, s0, [], add);
    AddJob(s0);
    assert [] + [add] == [add];
    WarmTickWithJob(Run(cfg, s0, [add]));
    RunSnoc(cfg, s0, [add], warm);
    es := MissedCrossing([add] + [warm]);
    ReclaimedTickWithJob(Run(cfg, s0, es));
    JobIsRest();
  }

  /** A concrete breach with the shipped defaults: emergency at 100 s, ramp-down at 110 s. */
  lemma EmergencyDoesNotRestartCooldown()
    ensures var fc := Config.DEFAULT_FAN;
            var d := Drive(100, 100, "critical", Some(0));
            fc.Ramps() && fc.IsCritical(Reading(90, 50))
            && SpeedLaw.Decide(fc, d, 0, None, Reading(90, 50), 100 * SECOND).lastOver == Some(0)
            && Target(fc, d, 0, None, Reading(50, 50), 110 * SECOND) == 90
  {
  }

  // ----- Hotter against cooler, over whole runs -----

  /** Two runs on one clock, the second reading at least as hot at every tick. */
  ghost predicate PairedRuns(s: State, cool: seq<Event>, hot: seq<Event>, from: Time) {
    && |cool| == |hot| && SteadyRun(s.store, cool) && SteadyRun(s.store, hot)
    && Hotter(Beats(cool), Beats(hot)) && InOrderFrom(Beats(cool), from) && NotAfter(s.drive, from)
  }

  /** From the same state (at base or above), the hotter run is never the slower one, unless a reading of
      the cooler run moves the cooldown clock while an emergency of the hotter one does not. */
  lemma HotterRunNeverSlower(cfg: Config.Config, s: State, cool: seq<Event>, hot: seq<Event>, from: Time)
    requires cfg.fan.Ramps() && InControl(s) && PairedRuns(s, cool, hot, from)
    requires NeverSeparated(cfg.fan, Beats(cool), Beats(hot))
    requires cfg.fan.Clamp(cfg.fan.BaseSpeed()) <= s.drive.current
    ensures Run(cfg, s, cool).drive.current <= Run(cfg, s, hot).drive.current
  {
    hide Step, Trajectory, Run;
    SteadyRunIsTrajectory(cfg, s, cool);
    SteadyRunIsTrajectory(cfg, s, hot);
    HotterTrajectory(cfg.fan, s.drive, s.drive, Store.Floor(s.store.hints), Beats(cool), Beats(hot), from);
  }

  /** Whatever two controllers with the same hints meet together from now on, the slower stays the slower. */
  ghost predicate RunOrderLasts(cfg: Config.Config, s: State, t: State, from: Time) {
    forall more: seq<Event> :: SteadyRun(s.store, more) && InOrderFrom(Beats(more), from) ==>
      Run(cfg, s, more).drive.current <= Run(cfg, t, more).drive.current
  }

  /** An instant, not after `upTo`, at which no hint has expired. */
  lemma {:induction false} BeforeExpiry(hints: map<string, Store.Hint>, upTo: Time) returns (t: Time)
    ensures t <= upTo && Store.Unexpired(hints, t) == hints
    decreases |hints|
  {
    if hints == map[] {
      t := upTo;
    } else {
      var source :| source in hints;
      var rest := hints - {source};
      assert rest.Keys == hints.Keys - {source};
      var early := BeforeExpiry(rest, upTo);
      t := if hints[source].ExpiredAt(early) then hints[source].expiresAt.value else early;
      forall k <- hints ensures !hints[k].ExpiredAt(t) {
        if k != source {
          assert k in Store.Unexpired(rest, early) && rest[k] == hints[k];
        }
      }
    }
  }

  /** Every sequence of beats is that of some steady run. */
  lemma EventsOf(st: Store.Store, beats: seq<Beat>) returns (es: seq<Event>)
    ensures SteadyRun(st, es) && Beats(es) == beats
  {
    var clean := BeforeExpiry(st.hints, 0);
    es := seq(|beats|, k requires 0 <= k < |beats| =>
      Tick(Input(Some(beats[k].reading), Clock(beats[k].now, beats[k].now, clean, beats[k].now), true, true, true, true, [])));
    assert Beats(es) == beats;
  }

  lemma RunOrderIsTrajectoryOrder(cfg: Config.Config, s: State, t: State, from: Time)
    requires InControl(s) && InControl(t) && s.store == t.store
    ensures RunOrderLasts(cfg, s, t, from) <==> OrderLasts(cfg.fan, s.drive, t.drive, Store.Floor(s.store.hints), from)
  {
    hide Run, Trajectory, Beats, InControl;
    var floor := Store.Floor(s.store.hints);
    if RunOrderLasts(cfg, s, t, from) {
      forall more: seq<Beat> | InOrderFrom(more, from)
        ensures Trajectory(cfg.fan, s.drive, floor, more).current <= Trajectory(cfg.fan, t.drive, floor, more).current
      {
        var es := EventsOf(s.store, more);
        SteadyRunIsTrajectory(cfg, s, es);
        SteadyRunIsTrajectory(cfg, t, es);
      }
    }
    if OrderLasts(cfg.fan, s.drive, t.drive, floor, from) {
      forall more: seq<Event> | SteadyRun(s.store, more) && InOrderFrom(Beats(more), from)
        ensures Run(cfg, s, more).drive.current <= Run(cfg, t, more).drive.current
      {
        SteadyRunIsTrajectory(cfg, s, more);
        SteadyRunIsTrajectory(cfg, t, more);
      }
    }
  }

  /** The order after k ticks, and in every common future from there. */
  ghost predicate RunOrderLastsAfter(cfg: Config.Config, s: State, cool: seq<Event>, hot: seq<Event>, k: nat, from: Time)
    requires PairedRuns(s, cool, hot, from) && k <= |cool|
  {
    RunOrderLasts(cfg, Run(cfg, s, cool[..k]), Run(cfg, s, hot[..k]), Latest(Beats(cool)[..k], from))
  }

  lemma RunOrderAfter(cfg: Config.Config, s: State, cool: seq<Event>, hot: seq<Event>, k: nat, from: Time)
    requires InControl(s) && PairedRuns(s, cool, hot, from) && k <= |cool|
    ensures RunOrderLastsAfter(cfg, s, cool, hot, k, from)
       <==> OrderLastsAfter(cfg.fan, s.drive, s.drive, Store.Floor(s.store.hints), Beats(cool), Beats(hot), k, from)
  {
    hide Run, Trajectory, RunOrderLasts, OrderLasts;
    assert Beats(cool[..k]) == Beats(cool)[..k] && Beats(hot[..k]) == Beats(hot)[..k];
    SteadyRunIsTrajectory(cfg, s, cool[..k]);
    SteadyRunIsTrajectory(cfg, s, hot[..k]);
    RunOrderIsTrajectoryOrder(cfg, Run(cfg, s, cool[..k]), Run(cfg, s, hot[..k]), Latest(Beats(cool)[..k], from));
  }

  /** After k ticks, the cooldown clock of the cooler run (a function of its readings) lets it stay above
      rest while the hotter one goes down. */
  ghost predicate RunOutlastsAfter(cfg: Config.Config, s: State, cool: seq<Event>, hot: seq<Event>, k: nat, from: Time)
    requires PairedRuns(s, cool, hot, from) && k <= |cool|
  {
    OutlastsAfter(cfg.fan, s.drive, s.drive, Store.Floor(s.store.hints), Beats(cool), Beats(hot), k, from)
  }

  /** With emergencies: after every tick, and in every common future, the hotter run is at least as fast, if
      and only if the cooler run never outlasts it. */
  lemma HotterRunsExactlyWhen(cfg: Config.Config, s: State, cool: seq<Event>, hot: seq<Event>, from: Time)
    requires cfg.fan.Ramps() && InControl(s) && PairedRuns(s, cool, hot, from)
    requires cfg.fan.Clamp(cfg.fan.BaseSpeed()) <= s.drive.current
    ensures (forall k :: 0 <= k <= |cool| ==> RunOrderLastsAfter(cfg, s, cool, hot, k, from))
       <==> (forall k :: 0 <= k <= |cool| ==> !RunOutlastsAfter(cfg, s, cool, hot, k, from))
  {
    hide Run, RunOrderLastsAfter, OrderLastsAfter, OutlastsAfter;
    forall k | 0 <= k <= |cool|
      ensures RunOrderLastsAfter(cfg, s, cool, hot, k, from)
         <==> OrderLastsAfter(cfg.fan, s.drive, s.drive, Store.Floor(s.store.hints), Beats(cool), Beats(hot), k, from)
    {
      RunOrderAfter(cfg, s, cool, hot, k, from);
    }
    var a, b, d, floor := Beats(cool), Beats(hot), s.drive, Store.Floor(s.store.hints);
    HotterOrderExactlyWhen(cfg.fan, d, d, floor, a, b, from);
    if forall k :: 0 <= k <= |cool| ==> RunOrderLastsAfter(cfg, s, cool, hot, k, from) {
      assert forall k :: 0 <= k <= |a| ==> !OutlastsAfter(cfg.fan, d, d, floor, a, b, k, from);
      forall k | 0 <= k <= |cool| ensures !RunOutlastsAfter(cfg, s, cool, hot, k, from) {
        assert !OutlastsAfter(cfg.fan, d, d, floor, a, b, k, from);
      }
    }
    if forall k :: 0 <= k <= |cool| ==> !RunOutlastsAfter(cfg, s, cool, hot, k, from) {
      forall k | 0 <= k <= |a| ensures !OutlastsAfter(cfg.fan, d, d, floor, a, b, k, from) {
        assert !RunOutlastsAfter(cfg, s, cool, hot, k, from);
      }
      assert forall k :: 0 <= k <= |a| ==> OrderLastsAfter(cfg.fan, d, d, floor, a, b, k, from);
    }
  }

  /** A separating pair with the shipped defaults: the emergency leaves its cooldown clock alone, and at the
      next cool reading that run is at 20% and the one that stayed cooler at 30%. */
  lemma EmergencyBreaksTheOrder()
    ensures var fc, d := Config.DEFAULT_FAN, Drive(20, 20, "idle", None);
            var warm := SpeedLaw.Decide(fc, d, 0, None, Reading(66, 50), 0);
            var critical := SpeedLaw.Decide(fc, d, 0, None, Reading(90, 50), 0);
            Reading(66, 50).CoolerOrEqual(Reading(90, 50))
            && Target(fc, warm.(current := warm.target), 0, None, Reading(50, 50), 10 * SECOND) == 30
            && Target(fc, critical.(current := critical.target), 0, None, Reading(50, 50), 10 * SECOND) == 20
  {
  }
}
