/** The speed law iterated: closed forms, rest points, and hotter against cooler. */
module Trajectories {
  import opened Basics
  import opened SpeedLaw
  import Config

  /** One reading and the instant it is acted on. */
  datatype Beat = Beat(reading: Reading, now: Time)

  /** One decision whose fan write is acknowledged. */
  function Follow(fc: Config.FanControl, d: Drive, floor: int, b: Beat): Drive {
    var decided := Decide(fc, d, floor, None, b.reading, b.now);
    decided.(current := decided.target)
  }

  function Trajectory(fc: Config.FanControl, d: Drive, floor: int, beats: seq<Beat>): Drive {
    if beats == [] then d
    else Follow(fc, Trajectory(fc, d, floor, beats[..|beats| - 1]), floor, beats[|beats| - 1])
  }

  // ----- Closed forms of one tick and their unique rest points -----

  function RampUpSpeed(fc: Config.FanControl, c: int, r: Reading, k: nat): int {
    Max(c, Min(Min(fc.maxSpeed, Needed(fc, r)), c + k * fc.Step()))
  }

  /** Where a cool machine settles: base speed or hint floor, inside the limits. */
  function RestSpeed(fc: Config.FanControl, floor: int): int {
    fc.Clamp(Max(floor, fc.BaseSpeed()))
  }

  function RampDownSpeed(fc: Config.FanControl, floor: int, c: int, k: nat): int {
    Max(RestSpeed(fc, floor), c - k * fc.Step())
  }

  lemma RampUpStep(fc: Config.FanControl, d: Drive, floor: int, r: Reading, now: Time, c: int, k: nat)
    requires fc.Ramps() && fc.OverThreshold(r) && !fc.IsCritical(r)
    requires fc.Clamp(floor) <= c <= fc.maxSpeed && d.current == RampUpSpeed(fc, c, r, k)
    ensures Target(fc, d, floor, None, r, now) == RampUpSpeed(fc, c, r, k + 1)
  {
    NeededMonotone(fc, r, r);
    assert (k + 1) * fc.Step() == k * fc.Step() + fc.Step();
    MulMonotone(0, k, fc.Step());
  }

  lemma RampDownStep(fc: Config.FanControl, d: Drive, floor: int, r: Reading, now: Time, c: int, k: nat)
    requires fc.Ramps() && !fc.OverThreshold(r) && Cooled(fc, d.lastOver, now)
    requires c <= fc.maxSpeed
    requires if k == 0 then d.current == c else d.current == RampDownSpeed(fc, floor, c, k)
    ensures Target(fc, d, floor, None, r, now) == RampDownSpeed(fc, floor, c, k + 1)
  {
    assert (k + 1) * fc.Step() == k * fc.Step() + fc.Step();
    MulMonotone(0, k, fc.Step());
  }

  /** A cooled machine's speed is at rest at exactly one value. */
  lemma RestIsUnique(fc: Config.FanControl, d: Drive, floor: int, r: Reading, now: Time)
    requires fc.Ramps() && !fc.OverThreshold(r) && Cooled(fc, d.lastOver, now)
    ensures Target(fc, d, floor, None, r, now) == d.current <==> d.current == RestSpeed(fc, floor)
  {
  }

  /** The distance to rest is a termination measure for cooling down. */
  lemma DistanceToRestShrinks(fc: Config.FanControl, d: Drive, floor: int, r: Reading, now: Time)
    requires fc.Ramps() && !fc.OverThreshold(r) && Cooled(fc, d.lastOver, now)
    requires d.current != RestSpeed(fc, floor)
    ensures var rest, next := RestSpeed(fc, floor), Target(fc, d, floor, None, r, now);
            rest <= next <= Max(rest, d.current - 1)
  {
  }

  // ----- Closed forms of whole trajectories -----

  ghost predicate Constant(beats: seq<Beat>, r: Reading) {
    forall k :: 0 <= k < |beats| ==> beats[k].reading == r
  }

  lemma {:induction false} RampUpTrajectory(fc: Config.FanControl, d: Drive, floor: int, beats: seq<Beat>, r: Reading)
    requires fc.Ramps() && fc.OverThreshold(r) && !fc.IsCritical(r) && Constant(beats, r)
    requires fc.Clamp(floor) <= d.current <= fc.maxSpeed
    ensures Trajectory(fc, d, floor, beats).current == RampUpSpeed(fc, d.current, r, |beats|)
    decreases |beats|
  {
    if beats != [] {
      hide RampUpSpeed, Decide;
      var init, last := beats[..|beats| - 1], beats[|beats| - 1];
      RampUpTrajectory(fc, d, floor, init, r);
      RampUpStep(fc, Trajectory(fc, d, floor, init), floor, r, last.now, d.current, |init|);
    }
  }

  /** Ticks that cover `gap` in steps of `step`, rounding up. */
  function TicksFor(gap: int, step: int): (n: nat)
    requires step > 0
  {
    if gap <= 0 then 0 else (gap + step - 1) / step
  }

  lemma TicksSuffice(gap: int, step: int, k: nat)
    requires step > 0 && k >= TicksFor(gap, step)
    ensures k * step >= gap
  {
    var n := TicksFor(gap, step);
    MulMonotone(n, k, step);
    if gap > 0 {
      assert n * step + (gap + step - 1) % step == gap + step - 1;
    } else {
      MulMonotone(0, k, step);
    }
  }

  lemma RampUpReaches(fc: Config.FanControl, c: int, r: Reading, k: nat)
    requires fc.Ramps() && k >= TicksFor(Min(fc.maxSpeed, Needed(fc, r)) - c, fc.Step())
    ensures RampUpSpeed(fc, c, r, k) == Max(c, Min(fc.maxSpeed, Needed(fc, r)))
  {
    hide Needed;
    TicksSuffice(Min(fc.maxSpeed, Needed(fc, r)) - c, fc.Step(), k);
  }

  lemma {:induction false} RampDownTrajectory(fc: Config.FanControl, d: Drive, floor: int, beats: seq<Beat>, r: Reading)
    requires fc.Ramps() && !fc.OverThreshold(r) && Constant(beats, r)
    requires forall k :: 0 <= k < |beats| ==> Cooled(fc, d.lastOver, beats[k].now)
    requires d.current <= fc.maxSpeed
    ensures var d' := Trajectory(fc, d, floor, beats);
      && d'.lastOver == d.lastOver
      && d'.current == if beats == [] then d.current else RampDownSpeed(fc, floor, d.current, |beats|)
    decreases |beats|
  {
    if beats != [] {
      hide RampDownSpeed, Ordinary;
      var init, last := beats[..|beats| - 1], beats[|beats| - 1];
      RampDownTrajectory(fc, d, floor, init, r);
      RampDownStep(fc, Trajectory(fc, d, floor, init), floor, r, last.now, d.current, |init|);
    }
  }

  // ----- Hotter against cooler -----

  predicate ClocksOrdered(a: Option<Time>, b: Option<Time>) {
    a.Some? ==> b.Some? && a.value <= b.value
  }

  predicate SlowerThan(a: Drive, b: Drive) {
    a.current <= b.current && ClocksOrdered(a.lastOver, b.lastOver)
  }

  predicate NotAfter(d: Drive, now: Time) {
    d.lastOver.Some? ==> d.lastOver.value <= now
  }

  /** The cooler reading moves the cooldown clock, and the emergency of the hotter one does not. */
  predicate Separates(fc: Config.FanControl, cool: Reading, hot: Reading) {
    fc.IsCritical(hot) && fc.OverThreshold(cool) && !fc.IsCritical(cool)
  }

  /** In time order and not before `from`. */
  ghost predicate InOrderFrom(beats: seq<Beat>, from: Time) {
    && (forall k :: 0 <= k < |beats| ==> from <= beats[k].now)
    && (forall j, k :: 0 <= j < k < |beats| ==> beats[j].now <= beats[k].now)
  }

  /** The same instants, and at each of them the second reading is at least as hot. */
  ghost predicate Hotter(cool: seq<Beat>, hot: seq<Beat>) {
    && |cool| == |hot|
    && (forall k :: 0 <= k < |cool| ==> cool[k].reading.CoolerOrEqual(hot[k].reading) && cool[k].now == hot[k].now)
  }

  ghost predicate NeverSeparated(fc: Config.FanControl, cool: seq<Beat>, hot: seq<Beat>)
    requires Hotter(cool, hot)
  {
    forall k :: 0 <= k < |cool| ==> !Separates(fc, cool[k].reading, hot[k].reading)
  }

  /** The cooldown clock after these beats, from the readings alone. */
  function RampClock(fc: Config.FanControl, start: Option<Time>, beats: seq<Beat>): Option<Time> {
    if beats == [] then start
    else
      var b := beats[|beats| - 1];
      if fc.OverThreshold(b.reading) && !fc.IsCritical(b.reading) then Some(b.now)
      else RampClock(fc, start, beats[..|beats| - 1])
  }

  lemma {:induction false} ClockOfTrajectory(fc: Config.FanControl, d: Drive, floor: int, beats: seq<Beat>)
    ensures Trajectory(fc, d, floor, beats).lastOver == RampClock(fc, d.lastOver, beats)
    decreases |beats|
  {
    hide Ordinary;
    if beats != [] {
      ClockOfTrajectory(fc, d, floor, beats[..|beats| - 1]);
    }
  }

  lemma {:induction false} TrajectoryConcat(fc: Config.FanControl, d: Drive, floor: int, x: seq<Beat>, y: seq<Beat>)
    ensures Trajectory(fc, d, floor, x + y) == Trajectory(fc, Trajectory(fc, d, floor, x), floor, y)
    decreases |y|
  {
    hide Follow;
    if y == [] {
      assert x + y == x;
    } else {
      TrajectoryConcat(fc, d, floor, x, y[..|y| - 1]);
      assert (x + y)[..|x + y| - 1] == x + y[..|y| - 1];
    }
  }

  /** One beat keeps the speeds ordered; only a separating pair can disorder the clocks. */
  lemma HotterFollowsHigher(fc: Config.FanControl, a: Drive, b: Drive, floor: int, cool: Beat, hot: Beat)
    requires fc.Ramps() && SlowerThan(a, b) && NotAfter(a, cool.now) && NotAfter(b, cool.now)
    requires cool.reading.CoolerOrEqual(hot.reading) && cool.now == hot.now
    requires fc.Clamp(fc.BaseSpeed()) <= a.current
    ensures var a', b' := Follow(fc, a, floor, cool), Follow(fc, b, floor, hot);
      && a'.current <= b'.current && NotAfter(a', cool.now) && NotAfter(b', cool.now)
      && fc.Clamp(fc.BaseSpeed()) <= a'.current
      && (ClocksOrdered(a'.lastOver, b'.lastOver) <==>
            !Separates(fc, cool.reading, hot.reading) || b.lastOver == Some(cool.now))
  {
    NeededMonotone(fc, cool.reading, hot.reading);
    hide Needed;
  }

  /** The hotter trajectory stays the faster one, and its cooldown clock the later one, as long as no
      pair of readings separates them. */
  lemma {:induction false} HotterTrajectory(fc: Config.FanControl, a: Drive, b: Drive, floor: int,
                                            cool: seq<Beat>, hot: seq<Beat>, from: Time)
    requires fc.Ramps() && Hotter(cool, hot) && InOrderFrom(cool, from) && NeverSeparated(fc, cool, hot)
    requires SlowerThan(a, b) && NotAfter(a, from) && NotAfter(b, from) && fc.Clamp(fc.BaseSpeed()) <= a.current
    ensures var a', b', last := Trajectory(fc, a, floor, cool), Trajectory(fc, b, floor, hot),
                                if cool == [] then from else cool[|cool| - 1].now;
      && SlowerThan(a', b') && NotAfter(a', last) && NotAfter(b', last)
      && fc.Clamp(fc.BaseSpeed()) <= a'.current
    decreases |cool|
  {
    if cool != [] {
      hide Follow, Separates;
      var n := |cool| - 1;
      HotterTrajectory(fc, a, b, floor, cool[..n], hot[..n], from);
      HotterFollowsHigher(fc, Trajectory(fc, a, floor, cool[..n]), Trajectory(fc, b, floor, hot[..n]), floor, cool[n], hot[n]);
    }
  }

  // ----- Exactly when the order lasts -----

  /** Whatever both machines read from now on, the one that is slower now stays so. */
  ghost predicate OrderLasts(fc: Config.FanControl, a: Drive, b: Drive, floor: int, from: Time) {
    forall more: seq<Beat> :: InOrderFrom(more, from) ==>
      Trajectory(fc, a, floor, more).current <= Trajectory(fc, b, floor, more).current
  }

  /** From speeds up to `top`, the machine with cooldown clock `x` can stay above rest while the one with
      clock `y` goes down: it is still in its cooldown, or the other rests at once and a step is too short. */
  predicate Outlasts(fc: Config.FanControl, x: Option<Time>, y: Option<Time>, top: int, floor: int, now: Time) {
    && RestSpeed(fc, floor) < fc.maxSpeed
    && !ClocksOrdered(x, y)
    && (!Cooled(fc, x, now) || (y.None? && top - fc.Step() > RestSpeed(fc, floor)))
  }

  function Top(fc: Config.FanControl, d: Drive): int {
    Max(d.current, fc.maxSpeed)
  }

  /** A machine that rests at full speed never leaves it. */
  lemma AlwaysAtFullSpeed(fc: Config.FanControl, d: Drive, floor: int, beat: Beat)
    requires fc.Ramps() && RestSpeed(fc, floor) == fc.maxSpeed && fc.Clamp(fc.BaseSpeed()) <= d.current
    ensures Follow(fc, d, floor, beat).current == if fc.IsCritical(beat.reading) then fc.EmergencySpeed() else fc.maxSpeed
  {
    NeededMonotone(fc, beat.reading, beat.reading);
    hide Needed;
  }

  /** With both cooldowns over. */
  lemma CooledBeat(fc: Config.FanControl, a: Drive, b: Drive, floor: int, cool: Beat, hot: Beat)
    requires fc.Ramps() && fc.Clamp(fc.BaseSpeed()) <= a.current <= b.current
    requires cool.reading.CoolerOrEqual(hot.reading) && cool.now == hot.now
    requires Cooled(fc, a.lastOver, cool.now) && NotHolding(fc, b, cool.now)
    requires b.lastOver.None? ==> Top(fc, a) - fc.Step() <= RestSpeed(fc, floor)
    ensures Follow(fc, a, floor, cool).current <= Follow(fc, b, floor, hot).current
  {
    NeededMonotone(fc, cool.reading, hot.reading);
    hide Needed;
  }

  lemma NeverBelowBase(fc: Config.FanControl, d: Drive, floor: int, beat: Beat)
    requires fc.Ramps() && fc.Clamp(fc.BaseSpeed()) <= d.current && NotAfter(d, beat.now)
    ensures var d' := Follow(fc, d, floor, beat);
      && fc.Clamp(fc.BaseSpeed()) <= d'.current && NotAfter(d', beat.now)
      && (0 < fc.maxSpeed ==> d'.current <= fc.maxSpeed)
  {
    NeededMonotone(fc, beat.reading, beat.reading);
    hide Needed;
  }

  /** One pair of beats keeps the speeds ordered unless the slower machine outlasts the faster. */
  lemma OrderedBeat(fc: Config.FanControl, a: Drive, b: Drive, floor: int, cool: Beat, hot: Beat)
    requires fc.Ramps() && fc.Clamp(fc.BaseSpeed()) <= a.current <= b.current
    requires cool.reading.CoolerOrEqual(hot.reading) && cool.now == hot.now
    requires NotAfter(a, cool.now) && NotAfter(b, cool.now)
    requires !Outlasts(fc, a.lastOver, b.lastOver, Top(fc, a), floor, cool.now)
    ensures var a', b' := Follow(fc, a, floor, cool), Follow(fc, b, floor, hot);
      && fc.Clamp(fc.BaseSpeed()) <= a'.current <= b'.current
      && NotAfter(a', cool.now) && NotAfter(b', cool.now)
      && (RestSpeed(fc, floor) < fc.maxSpeed ==> Top(fc, a') == fc.maxSpeed)
  {
    NeverBelowBase(fc, a, floor, cool);
    NeverBelowBase(fc, b, floor, hot);
    if RestSpeed(fc, floor) == fc.maxSpeed {
      AlwaysAtFullSpeed(fc, a, floor, cool);
      AlwaysAtFullSpeed(fc, b, floor, hot);
      hide Follow;
    } else if ClocksOrdered(a.lastOver, b.lastOver) {
      HotterFollowsHigher(fc, a, b, floor, cool, hot);
      hide Follow;
    } else {
      CooledBeat(fc, a, b, floor, cool, hot);
      hide Follow;
    }
  }

  lemma StillNotOutlasted(fc: Config.FanControl, a: Drive, b: Drive, floor: int, from: Time, now: Time)
    requires from <= now && !Outlasts(fc, a.lastOver, b.lastOver, Top(fc, a), floor, from)
    ensures !Outlasts(fc, a.lastOver, b.lastOver, Top(fc, a), floor, now)
  {
  }

  /** A common beat does not make the slower machine outlast the faster. */
  lemma NotOutlastedLater(fc: Config.FanControl, a: Drive, b: Drive, floor: int, beat: Beat, from: Time)
    requires from <= beat.now && Top(fc, Follow(fc, a, floor, beat)) <= Top(fc, a)
    requires !Outlasts(fc, a.lastOver, b.lastOver, Top(fc, a), floor, from)
    ensures var a', b' := Follow(fc, a, floor, beat), Follow(fc, b, floor, beat);
            !Outlasts(fc, a'.lastOver, b'.lastOver, Top(fc, a'), floor, beat.now)
  {
    hide Ordinary;
  }

  function Latest(beats: seq<Beat>, from: Time): Time {
    if beats == [] then from else beats[|beats| - 1].now
  }

  lemma {:induction false} CommonBeatsKeepTheOrder(fc: Config.FanControl, a: Drive, b: Drive, floor: int, more: seq<Beat>, from: Time)
    requires fc.Ramps() && InOrderFrom(more, from) && NotAfter(a, from) && NotAfter(b, from)
    requires fc.Clamp(fc.BaseSpeed()) <= a.current <= b.current
    requires !Outlasts(fc, a.lastOver, b.lastOver, Top(fc, a), floor, from)
    ensures var a', b', last := Trajectory(fc, a, floor, more), Trajectory(fc, b, floor, more), Latest(more, from);
      && fc.Clamp(fc.BaseSpeed()) <= a'.current <= b'.current && NotAfter(a', last) && NotAfter(b', last)
      && !Outlasts(fc, a'.lastOver, b'.lastOver, Top(fc, a'), floor, last)
    decreases |more|
  {
    if more != [] {
      hide Follow, Outlasts;
      var n := |more| - 1;
      CommonBeatsKeepTheOrder(fc, a, b, floor, more[..n], from);
      var a', b', before := Trajectory(fc, a, floor, more[..n]), Trajectory(fc, b, floor, more[..n]), Latest(more[..n], from);
      CommonBeat(fc, a', b', floor, more[n], before);
    }
  }

  lemma CommonBeat(fc: Config.FanControl, a: Drive, b: Drive, floor: int, beat: Beat, from: Time)
    requires fc.Ramps() && from <= beat.now && NotAfter(a, from) && NotAfter(b, from)
    requires fc.Clamp(fc.BaseSpeed()) <= a.current <= b.current
    requires !Outlasts(fc, a.lastOver, b.lastOver, Top(fc, a), floor, from)
    ensures var a', b' := Follow(fc, a, floor, beat), Follow(fc, b, floor, beat);
      && fc.Clamp(fc.BaseSpeed()) <= a'.current <= b'.current && NotAfter(a', beat.now) && NotAfter(b', beat.now)
      && !Outlasts(fc, a'.lastOver, b'.lastOver, Top(fc, a'), floor, beat.now)
  {
    StillNotOutlasted(fc, a, b, floor, from, beat.now);
    OrderedBeat(fc, a, b, floor, beat, beat);
    if RestSpeed(fc, floor) < fc.maxSpeed {
      NotOutlastedLater(fc, a, b, floor, beat, from);
    }
    hide Follow;
  }

  lemma FirstTwo(fc: Config.FanControl, d: Drive, floor: int, beats: seq<Beat>)
    requires |beats| == 2
    ensures Trajectory(fc, d, floor, beats) == Follow(fc, Follow(fc, d, floor, beats[0]), floor, beats[1])
  {
    hide Follow;
    var one := beats[..1];
    assert one[..0] == [] && Trajectory(fc, d, floor, one) == Follow(fc, d, floor, beats[0]);
  }

  function Emergency(fc: Config.FanControl, now: Time): Beat {
    Beat(Reading(fc.criticalCPUTemp, 0), now)
  }

  function Calm(fc: Config.FanControl, now: Time): Beat {
    Beat(Reading(fc.EffectiveCPUThreshold(), fc.EffectiveGPUThreshold()), now)
  }

  /** An emergency levels the two machines; a calm reading at the end of the longer cooldown then lowers
      only one of them, or one of them further. */
  lemma OutlastedIsReversed(fc: Config.FanControl, a: Drive, b: Drive, floor: int, from: Time) returns (more: seq<Beat>)
    requires fc.Ramps() && NotAfter(a, from) && NotAfter(b, from)
    requires fc.Clamp(fc.BaseSpeed()) <= a.current <= b.current
    requires Outlasts(fc, a.lastOver, b.lastOver, Top(fc, a), floor, from)
    ensures InOrderFrom(more, from)
    ensures Trajectory(fc, a, floor, more).current > Trajectory(fc, b, floor, more).current
  {
    var now := if Cooled(fc, a.lastOver, from) then from else a.lastOver.value + fc.Cooldown();
    if Cooled(fc, a.lastOver, from) && a.current > fc.maxSpeed {
      more := [Calm(fc, now)];
      assert more[..0] == [];
    } else {
      more := [Emergency(fc, now), Calm(fc, now)];
      FirstTwo(fc, a, floor, more);
      FirstTwo(fc, b, floor, more);
    }
  }

  lemma OrderLastsExactlyWhen(fc: Config.FanControl, a: Drive, b: Drive, floor: int, from: Time)
    requires fc.Ramps() && NotAfter(a, from) && NotAfter(b, from) && fc.Clamp(fc.BaseSpeed()) <= a.current
    ensures OrderLasts(fc, a, b, floor, from) <==>
      a.current <= b.current && !Outlasts(fc, a.lastOver, b.lastOver, Top(fc, a), floor, from)
  {
    hide Outlasts;
    if a.current > b.current {
      assert InOrderFrom([], from) && Trajectory(fc, a, floor, []) == a && Trajectory(fc, b, floor, []) == b;
    } else if Outlasts(fc, a.lastOver, b.lastOver, Top(fc, a), floor, from) {
      var more := OutlastedIsReversed(fc, a, b, floor, from);
    } else {
      forall more: seq<Beat> | InOrderFrom(more, from)
        ensures Trajectory(fc, a, floor, more).current <= Trajectory(fc, b, floor, more).current
      {
        CommonBeatsKeepTheOrder(fc, a, b, floor, more, from);
      }
    }
  }

  /** What one separating pair does to the future of two machines whose clocks were in order. */
  lemma SeparationExactlyWhen(fc: Config.FanControl, a: Drive, b: Drive, floor: int, cool: Beat, hot: Beat)
    requires fc.Ramps() && SlowerThan(a, b) && NotAfter(a, cool.now) && NotAfter(b, cool.now)
    requires cool.reading.CoolerOrEqual(hot.reading) && cool.now == hot.now && fc.Clamp(fc.BaseSpeed()) <= a.current
    ensures OrderLasts(fc, Follow(fc, a, floor, cool), Follow(fc, b, floor, hot), floor, cool.now) <==>
      || !Separates(fc, cool.reading, hot.reading)
      || b.lastOver == Some(cool.now)
      || RestSpeed(fc, floor) == fc.maxSpeed
      || (fc.Cooldown() < 0 && (b.lastOver.Some? || fc.maxSpeed - fc.Step() <= RestSpeed(fc, floor)))
  {
    HotterFollowsHigher(fc, a, b, floor, cool, hot);
    var a', b' := Follow(fc, a, floor, cool), Follow(fc, b, floor, hot);
    OrderLastsExactlyWhen(fc, a', b', floor, cool.now);
    hide OrderLasts, Ordinary;
  }

  /** Does the slower machine outlast the faster after k pairs of beats? Its clocks are those of the readings. */
  predicate OutlastsAfter(fc: Config.FanControl, a: Drive, b: Drive, floor: int, cool: seq<Beat>, hot: seq<Beat>, k: nat, from: Time)
    requires k <= |cool| == |hot|
  {
    Outlasts(fc, RampClock(fc, a.lastOver, cool[..k]), RampClock(fc, b.lastOver, hot[..k]),
             if k == 0 then Top(fc, a) else fc.maxSpeed, floor, Latest(cool[..k], from))
  }

  /** The order after k pairs of beats, and in every common future from there. */
  ghost predicate OrderLastsAfter(fc: Config.FanControl, a: Drive, b: Drive, floor: int, cool: seq<Beat>, hot: seq<Beat>, k: nat, from: Time)
    requires k <= |cool| == |hot|
  {
    OrderLasts(fc, Trajectory(fc, a, floor, cool[..k]), Trajectory(fc, b, floor, hot[..k]), floor, Latest(cool[..k], from))
  }

  lemma {:induction false} BoundsOfTrajectory(fc: Config.FanControl, d: Drive, floor: int, beats: seq<Beat>, from: Time)
    requires fc.Ramps() && InOrderFrom(beats, from) && NotAfter(d, from) && fc.Clamp(fc.BaseSpeed()) <= d.current
    ensures var d' := Trajectory(fc, d, floor, beats);
      && fc.Clamp(fc.BaseSpeed()) <= d'.current && NotAfter(d', Latest(beats, from))
      && (beats != [] && RestSpeed(fc, floor) < fc.maxSpeed ==> Top(fc, d') == fc.maxSpeed)
    decreases |beats|
  {
    if beats != [] {
      hide Follow;
      var n := |beats| - 1;
      BoundsOfTrajectory(fc, d, floor, beats[..n], from);
      NeverBelowBase(fc, Trajectory(fc, d, floor, beats[..n]), floor, beats[n]);
    }
  }

  /** After k pairs, if the speeds are still in order, they stay so in every common future exactly when
      the slower machine does not outlast the faster. */
  lemma OrderAfterExactlyWhen(fc: Config.FanControl, a: Drive, b: Drive, floor: int,
                              cool: seq<Beat>, hot: seq<Beat>, k: nat, from: Time)
    requires fc.Ramps() && Hotter(cool, hot) && InOrderFrom(cool, from) && k <= |cool|
    requires NotAfter(a, from) && NotAfter(b, from) && fc.Clamp(fc.BaseSpeed()) <= a.current <= b.current
    ensures OrderLastsAfter(fc, a, b, floor, cool, hot, k, from) <==>
      && Trajectory(fc, a, floor, cool[..k]).current <= Trajectory(fc, b, floor, hot[..k]).current
      && !OutlastsAfter(fc, a, b, floor, cool, hot, k, from)
    ensures OutlastsAfter(fc, a, b, floor, cool, hot, k, from) ==
      var a', b' := Trajectory(fc, a, floor, cool[..k]), Trajectory(fc, b, floor, hot[..k]);
      Outlasts(fc, a'.lastOver, b'.lastOver, Top(fc, a'), floor, Latest(cool[..k], from))
  {
    hide OrderLasts, Trajectory;
    var a', b' := Trajectory(fc, a, floor, cool[..k]), Trajectory(fc, b, floor, hot[..k]);
    BoundsOfTrajectory(fc, a, floor, cool[..k], from);
    BoundsOfTrajectory(fc, b, floor, hot[..k], from);
    ClockOfTrajectory(fc, a, floor, cool[..k]);
    ClockOfTrajectory(fc, b, floor, hot[..k]);
    assert k == 0 ==> a' == a by {
      assert cool[..0] == [];
      TrajectoryOfNone(fc, a, floor);
    }
    OrderLastsExactlyWhen(fc, a', b', floor, Latest(cool[..k], from));
  }

  lemma TrajectoryOfNone(fc: Config.FanControl, d: Drive, floor: int)
    ensures Trajectory(fc, d, floor, []) == d
  {
  }

  lemma {:induction false} OrderedUntil(fc: Config.FanControl, a: Drive, b: Drive, floor: int,
                                       cool: seq<Beat>, hot: seq<Beat>, n: nat, from: Time)
    requires fc.Ramps() && Hotter(cool, hot) && InOrderFrom(cool, from) && n <= |cool|
    requires NotAfter(a, from) && NotAfter(b, from) && fc.Clamp(fc.BaseSpeed()) <= a.current <= b.current
    requires forall k :: 0 <= k < n ==> !OutlastsAfter(fc, a, b, floor, cool, hot, k, from)
    ensures Trajectory(fc, a, floor, cool[..n]).current <= Trajectory(fc, b, floor, hot[..n]).current
    decreases n
  {
    hide Follow, Outlasts, OutlastsAfter;
    if n == 0 {
      assert cool[..0] == [] == hot[..0];
    } else {
      var m := n - 1;
      OrderedUntil(fc, a, b, floor, cool, hot, m, from);
      OrderAfterExactlyWhen(fc, a, b, floor, cool, hot, m, from);
      BoundsOfTrajectory(fc, a, floor, cool[..m], from);
      BoundsOfTrajectory(fc, b, floor, hot[..m], from);
      var a', b' := Trajectory(fc, a, floor, cool[..m]), Trajectory(fc, b, floor, hot[..m]);
      assert cool[..n][..m] == cool[..m] && hot[..n][..m] == hot[..m];
      StillNotOutlasted(fc, a', b', floor, Latest(cool[..m], from), cool[m].now);
      OrderedBeat(fc, a', b', floor, cool[m], hot[m]);
    }
  }

  /** For two machines fed pointwise hotter readings, the order holds after every beat and in every
      common future if and only if after no beat does the slower one outlast the faster. */
  lemma HotterOrderExactlyWhen(fc: Config.FanControl, a: Drive, b: Drive, floor: int,
                               cool: seq<Beat>, hot: seq<Beat>, from: Time)
    requires fc.Ramps() && Hotter(cool, hot) && InOrderFrom(cool, from)
    requires NotAfter(a, from) && NotAfter(b, from) && fc.Clamp(fc.BaseSpeed()) <= a.current <= b.current
    ensures (forall k :: 0 <= k <= |cool| ==> OrderLastsAfter(fc, a, b, floor, cool, hot, k, from))
       <==> (forall k :: 0 <= k <= |cool| ==> !OutlastsAfter(fc, a, b, floor, cool, hot, k, from))
  {
    hide OrderLastsAfter, OutlastsAfter;
    forall k | 0 <= k <= |cool|
      ensures OrderLastsAfter(fc, a, b, floor, cool, hot, k, from) ==> !OutlastsAfter(fc, a, b, floor, cool, hot, k, from)
    {
      OrderAfterExactlyWhen(fc, a, b, floor, cool, hot, k, from);
    }
    if forall k :: 0 <= k <= |cool| ==> !OutlastsAfter(fc, a, b, floor, cool, hot, k, from) {
      forall k | 0 <= k <= |cool| ensures OrderLastsAfter(fc, a, b, floor, cool, hot, k, from) {
        OrderedUntil(fc, a, b, floor, cool, hot, k, from);
        OrderAfterExactlyWhen(fc, a, b, floor, cool, hot, k, from);
      }
    }
  }
}
