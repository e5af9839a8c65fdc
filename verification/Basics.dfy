/** Small shared vocabulary: optional values, instants, readings and integer helpers. */
module Basics {

  datatype Option<+T> = None | Some(value: T)

  /** Instants and durations are whole nanoseconds, as in Go's time package. */
  type Time = int

  const SECOND: Time := 1_000_000_000
  const MINUTE: Time := 60 * SECOND
  const DAY: Time := 24 * 60 * 60 * SECOND

  /** What one successful pass over both sensors yields: the hottest CPU and GPU. */
  datatype Reading = Reading(cpuMax: int, gpuMax: int) {
    ghost predicate CoolerOrEqual(hotter: Reading) {
      cpuMax <= hotter.cpuMax && gpuMax <= hotter.gpuMax
    }
  }

  function Min(a: int, b: int): int {
    if a < b then a else b
  }

  function Max(a: int, b: int): int {
    if a > b then a else b
  }

  /** The value nearest to x between lo and hi. */
  function Within(lo: int, hi: int, x: int): int {
    if x < lo then lo else if hi < x then hi else x
  }

  lemma MulMonotone(a: int, b: int, factor: int)
    requires a <= b && 0 <= factor
    ensures a * factor <= b * factor
  {
    assert 0 <= (b - a) * factor;
    assert (b - a) * factor == b * factor - a * factor;
  }
}
