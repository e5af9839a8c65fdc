/** The fan-control configuration and its safety validation (internal/config/config.go). */
module Config {
  import opened Basics

  const DEFAULT_CPU_THRESHOLD := 65
  const DEFAULT_GPU_THRESHOLD := 60
  const DEFAULT_FAILURE_LIMIT := 3
  const DEFAULT_IDLE_SPEED := 20
  const DEFAULT_STEP_SIZE := 10
  const DEFAULT_COOLDOWN: Time := 60 * SECOND

  datatype FanControl = FanControl(
    minSpeed: int,
    maxSpeed: int,
    idleSpeed: int,
    cpuThreshold: int,
    gpuThreshold: int,
    stepSize: int,
    cooldownDelay: int,
    criticalCPUTemp: int,
    criticalGPUTemp: int,
    sensorFailureLimit: int,
    writeFailureLimit: int)
  {
    function EffectiveCPUThreshold(): int {
      if cpuThreshold > 0 then cpuThreshold else DEFAULT_CPU_THRESHOLD
    }

    function EffectiveGPUThreshold(): int {
      if gpuThreshold > 0 then gpuThreshold else DEFAULT_GPU_THRESHOLD
    }

    predicate IsCritical(r: Reading) {
      r.cpuMax >= criticalCPUTemp || r.gpuMax >= criticalGPUTemp
    }

    predicate OverThreshold(r: Reading) {
      r.cpuMax > EffectiveCPUThreshold() || r.gpuMax > EffectiveGPUThreshold()
    }

    function SensorLimit(): (limit: nat)
      ensures limit >= 1
    {
      if sensorFailureLimit > 0 then sensorFailureLimit else DEFAULT_FAILURE_LIMIT
    }

    function WriteLimit(): (limit: nat)
      ensures limit >= 1
    {
      if writeFailureLimit > 0 then writeFailureLimit else DEFAULT_FAILURE_LIMIT
    }

    function BaseSpeed(): int {
      if idleSpeed == 0 then DEFAULT_IDLE_SPEED else idleSpeed
    }

    function Step(): int {
      if stepSize == 0 then DEFAULT_STEP_SIZE else stepSize
    }

    function Cooldown(): Time {
      if cooldownDelay == 0 then DEFAULT_COOLDOWN else cooldownDelay * SECOND
    }

    function Clamp(speed: int): int {
      Max(minSpeed, Min(maxSpeed, speed))
    }

    /** The speed of the thermal emergency: the ceiling, or 100 when the ceiling makes no sense. */
    function EmergencySpeed(): int {
      if maxSpeed <= 0 || maxSpeed > 100 then 100 else maxSpeed
    }

    /** What validation promises about the fan-control part. */
    ghost predicate Safe() {
      && 0 <= minSpeed <= maxSpeed <= 100
      && 40 <= criticalCPUTemp <= 120
      && 40 <= criticalGPUTemp <= 120
      && EffectiveCPUThreshold() < criticalCPUTemp
      && EffectiveGPUThreshold() < criticalGPUTemp
    }

    /** Safe, and the step (which validation does not look at) is not negative. */
    ghost predicate Ramps() {
      Safe() && 0 <= stepSize
    }
  }

  /** What the optional settings of a configuration stand for. */
  datatype Settings = Settings(
    cpuThreshold: int, gpuThreshold: int, idle: int, step: int, cooldown: Time, sensorLimit: int, writeLimit: int)

  /** The reading of config.example.yaml: degrees, percent, seconds and counts as written; 65, 60, 20%, 10%,
      60 s, 3 and 3 where nothing usable is. */
  ghost predicate Means(fc: FanControl, m: Settings) {
    && (if fc.cpuThreshold > 0 then m.cpuThreshold == fc.cpuThreshold else m.cpuThreshold == 65)
    && (if fc.gpuThreshold > 0 then m.gpuThreshold == fc.gpuThreshold else m.gpuThreshold == 60)
    && (if fc.idleSpeed != 0 then m.idle == fc.idleSpeed else m.idle == 20)
    && (if fc.stepSize != 0 then m.step == fc.stepSize else m.step == 10)
    && (if fc.cooldownDelay != 0 then m.cooldown == fc.cooldownDelay * 1_000_000_000 else m.cooldown == 60_000_000_000)
    && (if fc.sensorFailureLimit > 0 then m.sensorLimit == fc.sensorFailureLimit else m.sensorLimit == 3)
    && (if fc.writeFailureLimit > 0 then m.writeLimit == fc.writeFailureLimit else m.writeLimit == 3)
  }

  datatype Zone = Zone(name: string, cpuMax: int, gpuMax: int, fanSpeed: int) {
    predicate NotAbove(next: Zone) {
      cpuMax <= next.cpuMax && gpuMax <= next.gpuMax && fanSpeed <= next.fanSpeed
    }
  }

  datatype Config = Config(
    fan: FanControl,
    zones: seq<Zone>,
    historyRetention: int,
    retentionDays: int)
  {
    /** Every zone is at or below every later zone, not only its neighbour. */
    ghost predicate Safe() {
      && fan.Safe()
      && (forall i, j :: 0 <= i < j < |zones| ==> zones[i].NotAbove(zones[j]))
      && retentionDays > 0
    }
  }

  /** The shipped defaults; the zones are for display only. */
  const DEFAULT_FAN := FanControl(5, 100, 20, 65, 60, 10, 60, 85, 90, 3, 3)
  const DEFAULT := Config(DEFAULT_FAN, [], 3600, 30)

  datatype ConfigError =
    | SpeedBounds
    | CriticalCPU
    | CriticalGPU
    | CriticalCPUBelowThreshold
    | CriticalGPUBelowThreshold
    | ZoneOrder(zone: string)
    | RetentionDays

  method Validate(c: Config) returns (err: Option<ConfigError>)
    ensures err == None <==> c.Safe()
    ensures forall m: Settings {:trigger Means(c.fan, m)} :: Means(c.fan, m) ==>
      (err == None <==>
        && 0 <= c.fan.minSpeed <= c.fan.maxSpeed <= 100
        && 40 <= c.fan.criticalCPUTemp <= 120 && m.cpuThreshold < c.fan.criticalCPUTemp
        && 40 <= c.fan.criticalGPUTemp <= 120 && m.gpuThreshold < c.fan.criticalGPUTemp
        && c.retentionDays > 0
        && forall i, j :: 0 <= i < j < |c.zones| ==>
             && c.zones[i].cpuMax <= c.zones[j].cpuMax && c.zones[i].gpuMax <= c.zones[j].gpuMax
             && c.zones[i].fanSpeed <= c.zones[j].fanSpeed)
    ensures err == Some(SpeedBounds) <==> !(0 <= c.fan.minSpeed <= c.fan.maxSpeed <= 100)
    ensures err in {Some(CriticalCPU), Some(CriticalGPU), Some(CriticalCPUBelowThreshold), Some(CriticalGPUBelowThreshold)}
      <==> 0 <= c.fan.minSpeed <= c.fan.maxSpeed <= 100 && !c.fan.Safe()
    ensures err == Some(CriticalCPU) ==> !(40 <= c.fan.criticalCPUTemp <= 120)
    ensures err == Some(CriticalGPU) ==> !(40 <= c.fan.criticalGPUTemp <= 120)
    ensures err == Some(CriticalCPUBelowThreshold) ==> c.fan.criticalCPUTemp <= c.fan.EffectiveCPUThreshold()
    ensures err == Some(CriticalGPUBelowThreshold) ==> c.fan.criticalGPUTemp <= c.fan.EffectiveGPUThreshold()
    ensures err == Some(RetentionDays) ==> c.retentionDays <= 0 && c.fan.Safe()
    ensures err.Some? && err.value.ZoneOrder? ==>
      c.fan.Safe() && exists i :: 0 < i < |c.zones| && c.zones[i].name == err.value.zone && !c.zones[i-1].NotAbove(c.zones[i])
  {
    var fc := c.fan;
    if fc.minSpeed < 0 || fc.maxSpeed > 100 || fc.minSpeed > fc.maxSpeed {
      return Some(SpeedBounds);
    }
    if fc.criticalCPUTemp < 40 || fc.criticalCPUTemp > 120 {
      return Some(CriticalCPU);
    }
    if fc.criticalGPUTemp < 40 || fc.criticalGPUTemp > 120 {
      return Some(CriticalGPU);
    }
    if fc.criticalCPUTemp <= fc.EffectiveCPUThreshold() {
      return Some(CriticalCPUBelowThreshold);
    }
    if fc.criticalGPUTemp <= fc.EffectiveGPUThreshold() {
      return Some(CriticalGPUBelowThreshold);
    }
    var i := 1;
    while i < |c.zones|
      invariant 1 <= i
      invariant forall a, b :: 0 <= a < b < i && b < |c.zones| ==> c.zones[a].NotAbove(c.zones[b])
    {
      var prev, cur := c.zones[i-1], c.zones[i];
      if cur.cpuMax < prev.cpuMax || cur.gpuMax < prev.gpuMax || cur.fanSpeed < prev.fanSpeed {
        assert !c.zones[i-1].NotAbove(c.zones[i]);
        return Some(ZoneOrder(cur.name));
      }
      i := i + 1;
    }
    if c.retentionDays <= 0 {
      return Some(RetentionDays);
    }
    return None;
  }
}
