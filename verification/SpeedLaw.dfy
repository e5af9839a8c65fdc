/** The feedback law: from the current speed and one reading to the next target. */
module SpeedLaw {
  import opened Basics
  import Config
  import Store

  /** What the loop remembers about the fans between ticks. */
  datatype Drive = Drive(current: int, target: int, zone: string, lastOver: Option<Time>)

  const AtRest := Drive(0, 0, "", None)

  function MaxOver(fc: Config.FanControl, r: Reading): int {
    Max(Max(0, r.cpuMax - fc.EffectiveCPUThreshold()), Max(0, r.gpuMax - fc.EffectiveGPUThreshold()))
  }

  /** One step above base for being over threshold, and one more for every full 5 degrees. */
  function Needed(fc: Config.FanControl, r: Reading): int {
    fc.BaseSpeed() + (MaxOver(fc, r) / 5 + 1) * fc.Step()
  }

  predicate Cooled(fc: Config.FanControl, lastOver: Option<Time>, now: Time) {
    lastOver.Some? && now - lastOver.value > fc.Cooldown()
  }

  /** The speed the thresholds and the cooldown ask for, before hints and limits. */
  function Ramp(fc: Config.FanControl, d: Drive, r: Reading, now: Time): int {
    if fc.OverThreshold(r) then
      if Needed(fc, r) > d.current then Min(d.current + fc.Step(), Needed(fc, r)) else d.current
    else if d.lastOver.None? then fc.BaseSpeed()
    else if Cooled(fc, d.lastOver, now) then
      if d.current > fc.BaseSpeed() then Max(fc.BaseSpeed(), d.current - fc.Step()) else fc.BaseSpeed()
    else d.current
  }

  function Ordinary(fc: Config.FanControl, d: Drive, floor: int, r: Reading, now: Time): int {
    fc.Clamp(Max(floor, Ramp(fc, d, r, now)))
  }

  function ZoneName(fc: Config.FanControl, r: Reading): string {
    if r.cpuMax > 80 || r.gpuMax > 85 then "hot"
    else if r.cpuMax > 70 || r.gpuMax > 75 then "warm"
    else if fc.OverThreshold(r) then "active"
    else "idle"
  }

  function Decide(fc: Config.FanControl, d: Drive, floor: int, override: Option<Store.Override>,
                  r: Reading, now: Time): Drive
  {
    if fc.IsCritical(r) then
      d.(target := fc.EmergencySpeed(), zone := "critical")
    else if override.Some? then
      d.(target := fc.Clamp(override.value.speed))
    else
      d.(target := Ordinary(fc, d, floor, r, now),
         zone := ZoneName(fc, r),
         lastOver := if fc.OverThreshold(r) then Some(now) else d.lastOver)
  }

  function Target(fc: Config.FanControl, d: Drive, floor: int, override: Option<Store.Override>,
                  r: Reading, now: Time): int
  {
    Decide(fc, d, floor, override, r, now).target
  }

  /** A decision never touches the current speed, and moves the cooldown clock only in the ramp branch. */
  lemma DecideFrame(fc: Config.FanControl, d: Drive, floor: int, ov: Option<Store.Override>, r: Reading, now: Time)
    ensures var d' := Decide(fc, d, floor, ov, r, now);
      && d'.current == d.current
      && d'.lastOver == if fc.OverThreshold(r) && !fc.IsCritical(r) && ov.None? then Some(now) else d.lastOver
  {
  }

  // ----- Range -----

  /** The target is in the configured band, except that a critical reading demands the emergency speed. */
  lemma TargetInBand(fc: Config.FanControl, d: Drive, floor: int, ov: Option<Store.Override>, r: Reading, now: Time)
    requires fc.Safe()
    ensures 0 <= Target(fc, d, floor, ov, r, now) <= 100
    ensures fc.IsCritical(r) ==> Target(fc, d, floor, ov, r, now) == fc.EmergencySpeed() >= fc.maxSpeed
    ensures !fc.IsCritical(r) ==> fc.minSpeed <= Target(fc, d, floor, ov, r, now) <= fc.maxSpeed
  {
  }

  /** Every active hint is a floor under every decision that no override makes. */
  lemma HintsAreHonoured(fc: Config.FanControl, d: Drive, hints: map<string, Store.Hint>, r: Reading, now: Time)
    requires fc.Safe()
    ensures forall source <- hints ::
      Target(fc, d, Store.Floor(hints), None, r, now) >= Min(fc.maxSpeed, hints[source].minFanSpeed)
  {
    hide Ramp;
    assert Store.IsFloor(hints, Store.Floor(hints));
  }

  // ----- Monotonicity in the temperatures -----

  /** Hotter readings never get a lower target, for this state, store and clock. */
  ghost predicate MonotoneAt(fc: Config.FanControl, d: Drive, floor: int, ov: Option<Store.Override>, now: Time) {
    forall cool: Reading, hot: Reading :: cool.CoolerOrEqual(hot) ==>
      Target(fc, d, floor, ov, cool, now) <= Target(fc, d, floor, ov, hot, now)
  }

  /** No reading is over a threshold and not critical. */
  ghost predicate RampBandEmpty(fc: Config.FanControl) {
    fc.criticalCPUTemp <= fc.EffectiveCPUThreshold() + 1 && fc.criticalGPUTemp <= fc.EffectiveGPUThreshold() + 1
  }

  /** A cool reading is answered with the base speed or a step towards it, not with a hold. */
  predicate NotHolding(fc: Config.FanControl, d: Drive, now: Time) {
    d.lastOver.None? || Cooled(fc, d.lastOver, now)
  }

  /** One step up from the current speed still falls short of what a cool reading gets. */
  predicate StepFallsShort(fc: Config.FanControl, d: Drive, floor: int) {
    fc.Clamp(Max(floor, d.current + fc.Step())) < fc.Clamp(Max(floor, fc.BaseSpeed()))
  }

  lemma NeededMonotone(fc: Config.FanControl, cool: Reading, hot: Reading)
    requires fc.Ramps() && cool.CoolerOrEqual(hot)
    ensures fc.BaseSpeed() + fc.Step() <= Needed(fc, cool) <= Needed(fc, hot)
  {
    var a, b := MaxOver(fc, cool) / 5 + 1, MaxOver(fc, hot) / 5 + 1;
    MulMonotone(1, a, fc.Step());
    MulMonotone(a, b, fc.Step());
  }

  lemma MonotonePair(fc: Config.FanControl, d: Drive, floor: int, ov: Option<Store.Override>,
                     cool: Reading, hot: Reading, now: Time)
    requires fc.Ramps() && cool.CoolerOrEqual(hot)
    requires ov.Some? || RampBandEmpty(fc) || !NotHolding(fc, d, now) || !StepFallsShort(fc, d, floor)
    ensures Target(fc, d, floor, ov, cool, now) <= Target(fc, d, floor, ov, hot, now)
  {
    NeededMonotone(fc, cool, hot);
  }

  /** Monotone exactly when none of the guards of the failing branch meet: a first tick (or a cooled
      one) from far below the base speed sends a cool machine to base and a hot one a single step up. */
  lemma MonotoneExactlyWhen(fc: Config.FanControl, d: Drive, floor: int, ov: Option<Store.Override>, now: Time)
    requires fc.Ramps()
    ensures MonotoneAt(fc, d, floor, ov, now) <==>
      ov.Some? || RampBandEmpty(fc) || !NotHolding(fc, d, now) || !StepFallsShort(fc, d, floor)
  {
    if ov.Some? || RampBandEmpty(fc) || !NotHolding(fc, d, now) || !StepFallsShort(fc, d, floor) {
      forall cool: Reading, hot: Reading | cool.CoolerOrEqual(hot)
        ensures Target(fc, d, floor, ov, cool, now) <= Target(fc, d, floor, ov, hot, now)
      {
        MonotonePair(fc, d, floor, ov, cool, hot, now);
      }
    } else {
      var cool := Reading(fc.EffectiveCPUThreshold(), fc.EffectiveGPUThreshold());
      var hot := if fc.criticalCPUTemp > fc.EffectiveCPUThreshold() + 1
                 then cool.(cpuMax := cool.cpuMax + 1) else cool.(gpuMax := cool.gpuMax + 1);
      NeededMonotone(fc, cool, hot);
      assert cool.CoolerOrEqual(hot);
      assert Target(fc, d, floor, ov, hot, now) < Target(fc, d, floor, ov, cool, now);
    }
  }

  /** The very first tick of a controller with the shipped defaults: 50 degrees ask for 20%, 66 for 10%. */
  lemma FirstTickIsNotMonotone(now: Time)
    ensures var fc := Config.DEFAULT_FAN;
      && Target(fc, AtRest, 0, None, Reading(50, 50), now) == 20
      && Target(fc, AtRest, 0, None, Reading(66, 50), now) == 10
      && !MonotoneAt(fc, AtRest, 0, None, now)
  {
    assert Reading(50, 50).CoolerOrEqual(Reading(66, 50));
  }

  // ----- Hysteresis, one decision at a time -----

  lemma HoldsDuringCooldown(fc: Config.FanControl, d: Drive, floor: int, r: Reading, now: Time)
    requires fc.Ramps() && d.lastOver.Some? && now - d.lastOver.value <= fc.Cooldown()
    ensures Target(fc, d, floor, None, r, now) >= Min(fc.maxSpeed, d.current)
  {
    NeededMonotone(fc, r, r);
  }

  lemma DropsByAtMostAStep(fc: Config.FanControl, d: Drive, floor: int, r: Reading, now: Time)
    requires fc.Ramps() && d.lastOver.Some?
    ensures Target(fc, d, floor, None, r, now) >= Min(fc.maxSpeed, d.current - fc.Step())
  {
    NeededMonotone(fc, r, r);
  }

  lemma BaseIsKept(fc: Config.FanControl, d: Drive, floor: int, r: Reading, now: Time)
    requires fc.Ramps() && d.current >= fc.Clamp(fc.BaseSpeed())
    ensures Target(fc, d, floor, None, r, now) >= fc.Clamp(fc.BaseSpeed())
  {
    NeededMonotone(fc, r, r);
  }
}
