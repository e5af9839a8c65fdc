/**
 Workload hints and the manual override: what API commands put in, what the control loop's
 clean-up takes out, and what a log of both amounts to.
 */
module Store {
  import opened Basics
  import Config

  const MAX_OVERRIDE_DURATION: Time := DAY

  datatype Hint = Hint(source: string, intensity: string, minFanSpeed: int, createdAt: Time, expiresAt: Option<Time>) {
    predicate ExpiredAt(t: Time) {
      expiresAt.Some? && expiresAt.value < t
    }
  }

  datatype Override = Override(speed: int, reason: string, createdAt: Time, expiresAt: Time) {
    predicate ExpiredAt(t: Time) {
      expiresAt < t
    }
  }

  datatype Store = Store(hints: map<string, Hint>, override: Option<Override>)

  const Empty := Store(map[], None)

  /** A call of the controller's API, with the clock readings it makes. */
  datatype Command =
    | AddHint(source: string, intensity: string, expiresAt: Option<Time>, now: Time)
    | RemoveHint(source: string)
    | SetOverride(speed: int, duration: Time, reason: string, now: Time, later: Time)
    | ClearOverride

  function HintFloor(intensity: string): int {
    if intensity == "high" then 45
    else if intensity == "medium" then 25
    else if intensity == "low" then 15
    else 25
  }

  function Registered(c: Command): Hint
    requires c.AddHint?
  {
    Hint(c.source, c.intensity, HintFloor(c.intensity), c.now, c.expiresAt)
  }

  /** An override lasts at most a day; none or a negative duration means exactly a day. */
  function CappedDuration(d: Time): (r: Time)
    ensures 0 < r <= MAX_OVERRIDE_DURATION
  {
    if d <= 0 || d > MAX_OVERRIDE_DURATION then MAX_OVERRIDE_DURATION else d
  }

  function Overriding(fc: Config.FanControl, c: Command): Override
    requires c.SetOverride?
  {
    Override(fc.Clamp(c.speed), c.reason, c.now, c.later + CappedDuration(c.duration))
  }

  function Apply(fc: Config.FanControl, st: Store, c: Command): Store {
    match c
    case AddHint(source, _, _, _) => st.(hints := st.hints[source := Registered(c)])
    case RemoveHint(source) => st.(hints := st.hints - {source})
    case SetOverride(_, _, _, _, _) => st.(override := Some(Overriding(fc, c)))
    case ClearOverride => st.(override := None)
  }

  function ApplyAll(fc: Config.FanControl, st: Store, cs: seq<Command>): Store {
    if cs == [] then st else Apply(fc, ApplyAll(fc, st, cs[..|cs| - 1]), cs[|cs| - 1])
  }

  function Unexpired(hints: map<string, Hint>, t: Time): map<string, Hint> {
    map source | source in hints && !hints[source].ExpiredAt(t) :: hints[source]
  }

  function Clean(st: Store, t: Time): Store {
    Store(Unexpired(st.hints, t),
          if st.override.Some? && st.override.value.ExpiredAt(t) then None else st.override)
  }

  /** `floor` is the highest speed any hint asks for, and 0 when none asks for more. */
  ghost predicate IsFloor(hints: map<string, Hint>, floor: int) {
    && 0 <= floor
    && (forall source <- hints :: hints[source].minFanSpeed <= floor)
    && (floor == 0 || exists source <- hints :: hints[source].minFanSpeed == floor)
  }

  /** The floor, visiting the hints in an arbitrary order. */
  ghost function Floor(hints: map<string, Hint>): (floor: int)
    ensures IsFloor(hints, floor)
    decreases |hints|
  {
    if hints == map[] then 0
    else
      var source :| source in hints;
      var rest := hints - {source};
      assert rest.Keys == hints.Keys - {source};
      var floor := Max(Floor(rest), hints[source].minFanSpeed);
      assert forall k <- hints :: k != source ==> k in rest && rest[k] == hints[k];
      floor
  }

  lemma FloorUnique(hints: map<string, Hint>, a: int, b: int)
    requires IsFloor(hints, a) && IsFloor(hints, b)
    ensures a == b
  {
  }

  // ----- What a log of commands and clean-ups amounts to -----

  datatype Op = Call(command: Command) | CleanUp(at: Time)

  function Perform(fc: Config.FanControl, st: Store, op: Op): Store {
    match op
    case Call(c) => Apply(fc, st, c)
    case CleanUp(t) => Clean(st, t)
  }

  function Replay(fc: Config.FanControl, st: Store, ops: seq<Op>): Store {
    if ops == [] then st
    else Perform(fc, Replay(fc, st, ops[..|ops| - 1]), ops[|ops| - 1])
  }

  predicate Concerns(op: Op, source: string) {
    op.Call? && ((op.command.AddHint? || op.command.RemoveHint?) && op.command.source == source)
  }

  predicate ConcernsOverride(op: Op) {
    op.Call? && (op.command.SetOverride? || op.command.ClearOverride?)
  }

  /** Op k registered a hint for `source` that nothing since replaced, removed or found expired. */
  ghost predicate HintStands(ops: seq<Op>, k: nat, source: string, h: Hint) {
    && k < |ops|
    && ops[k].Call? && ops[k].command.AddHint? && ops[k].command.source == source
    && h == Registered(ops[k].command)
    && forall j :: k < j < |ops| ==>
         !Concerns(ops[j], source) && !(ops[j].CleanUp? && h.ExpiredAt(ops[j].at))
  }

  ghost predicate OverrideStands(fc: Config.FanControl, ops: seq<Op>, k: nat, o: Override) {
    && k < |ops|
    && ops[k].Call? && ops[k].command.SetOverride?
    && o == Overriding(fc, ops[k].command)
    && forall j :: k < j < |ops| ==>
         !ConcernsOverride(ops[j]) && !(ops[j].CleanUp? && o.ExpiredAt(ops[j].at))
  }

  ghost predicate HintActive(ops: seq<Op>, source: string, h: Hint) {
    exists k: nat :: HintStands(ops, k, source, h)
  }

  ghost predicate OverrideActive(fc: Config.FanControl, ops: seq<Op>, o: Override) {
    exists k: nat :: OverrideStands(fc, ops, k, o)
  }

  lemma HintActiveSnoc(ops: seq<Op>, op: Op, source: string, h: Hint)
    ensures HintActive(ops + [op], source, h) <==>
      || (op.Call? && op.command.AddHint? && op.command.source == source && h == Registered(op.command))
      || (HintActive(ops, source, h) && !Concerns(op, source) && !(op.CleanUp? && h.ExpiredAt(op.at)))
  {
    var all := ops + [op];
    if op.Call? && op.command.AddHint? && op.command.source == source && h == Registered(op.command) {
      assert HintStands(all, |ops|, source, h);
    }
    if HintActive(ops, source, h) && !Concerns(op, source) && !(op.CleanUp? && h.ExpiredAt(op.at)) {
      var k: nat :| HintStands(ops, k, source, h);
      assert HintStands(all, k, source, h);
    }
    if HintActive(all, source, h) {
      var k: nat :| HintStands(all, k, source, h);
      if k < |ops| {
        assert all[|ops|] == op;
        assert forall j :: 0 <= j < |ops| ==> all[j] == ops[j];
        assert HintStands(ops, k, source, h);
      }
    }
  }

  lemma OverrideActiveSnoc(fc: Config.FanControl, ops: seq<Op>, op: Op, o: Override)
    ensures OverrideActive(fc, ops + [op], o) <==>
      || (op.Call? && op.command.SetOverride? && o == Overriding(fc, op.command))
      || (OverrideActive(fc, ops, o) && !ConcernsOverride(op) && !(op.CleanUp? && o.ExpiredAt(op.at)))
  {
    var all := ops + [op];
    if op.Call? && op.command.SetOverride? && o == Overriding(fc, op.command) {
      assert OverrideStands(fc, all, |ops|, o);
    }
    if OverrideActive(fc, ops, o) && !ConcernsOverride(op) && !(op.CleanUp? && o.ExpiredAt(op.at)) {
      var k: nat :| OverrideStands(fc, ops, k, o);
      assert OverrideStands(fc, all, k, o);
    }
    if OverrideActive(fc, all, o) {
      var k: nat :| OverrideStands(fc, all, k, o);
      if k < |ops| {
        assert all[|ops|] == op;
        assert forall j :: 0 <= j < |ops| ==> all[j] == ops[j];
        assert OverrideStands(fc, ops, k, o);
      }
    }
  }

  /** The store is exactly what stands in the log: both directions, for every clock. */
  lemma {:induction false} StoreRefinesLog(fc: Config.FanControl, ops: seq<Op>, source: string, h: Hint)
    ensures var st := Replay(fc, Empty, ops);
            (source in st.hints && st.hints[source] == h) <==> HintActive(ops, source, h)
    decreases |ops|
  {
    if |ops| > 0 {
      var before, op := ops[..|ops| - 1], ops[|ops| - 1];
      StoreRefinesLog(fc, before, source, h);
      assert ops == before + [op];
      HintActiveSnoc(before, op, source, h);
    }
  }

  lemma {:induction false} OverrideRefinesLog(fc: Config.FanControl, ops: seq<Op>, o: Override)
    ensures Replay(fc, Empty, ops).override == Some(o) <==> OverrideActive(fc, ops, o)
    decreases |ops|
  {
    if |ops| > 0 {
      var before, op := ops[..|ops| - 1], ops[|ops| - 1];
      OverrideRefinesLog(fc, before, o);
      assert ops == before + [op];
      OverrideActiveSnoc(fc, before, op, o);
    }
  }

  /** Clean-ups run on a clock that never goes back. */
  ghost predicate CleansInOrder(ops: seq<Op>) {
    forall i, j :: 0 <= i < j < |ops| && ops[i].CleanUp? && ops[j].CleanUp? ==> ops[i].at <= ops[j].at
  }

  /** When the last clean-up after entry k ran, if any did. */
  function LastCleanAfter(ops: seq<Op>, k: nat): (at: Option<Time>)
    ensures at.None? ==> forall j :: k < j < |ops| ==> !ops[j].CleanUp?
    ensures at.Some? ==> exists j :: k < j < |ops| && ops[j] == CleanUp(at.value)
                                     && forall m :: j < m < |ops| ==> !ops[m].CleanUp?
  {
    if |ops| <= k + 1 then None
    else
      var n := |ops| - 1;
      if ops[n].CleanUp? then Some(ops[n].at)
      else
        var at := LastCleanAfter(ops[..n], k);
        assert forall j :: 0 <= j < n ==> ops[..n][j] == ops[j];
        at
  }

  /** On such a clock only the last clean-up matters: a hint is active exactly when the latest command
      about its source registered it and, if clean-ups followed, the last one found it unexpired. */
  lemma LastCleanDecides(fc: Config.FanControl, ops: seq<Op>, k: nat, source: string)
    requires CleansInOrder(ops)
    requires k < |ops| && ops[k].Call? && ops[k].command.AddHint? && ops[k].command.source == source
    requires forall j :: k < j < |ops| ==> !Concerns(ops[j], source)
    ensures var h, last := Registered(ops[k].command), LastCleanAfter(ops, k);
            source in Replay(fc, Empty, ops).hints <==> last.None? || !h.ExpiredAt(last.value)
    ensures source in Replay(fc, Empty, ops).hints ==>
              Replay(fc, Empty, ops).hints[source] == Registered(ops[k].command)
  {
    var h, last := Registered(ops[k].command), LastCleanAfter(ops, k);
    var st := Replay(fc, Empty, ops);
    hide Replay, LastCleanAfter;
    StoreRefinesLog(fc, ops, source, h);
    if last.None? || !h.ExpiredAt(last.value) {
      assert HintStands(ops, k, source, h);
    }
    if source in st.hints {
      StoreRefinesLog(fc, ops, source, st.hints[source]);
      var k': nat :| HintStands(ops, k', source, st.hints[source]);
      assert Concerns(ops[k], source) && Concerns(ops[k'], source);
      assert k == k';
    }
  }

  /** An override that survives a clean-up was set no more than a day before that clean-up. */
  lemma OverrideWithinADay(fc: Config.FanControl, ops: seq<Op>, t: Time, o: Override)
    requires Replay(fc, Empty, ops + [CleanUp(t)]).override == Some(o)
    ensures exists k :: 0 <= k < |ops| && ops[k].Call? && ops[k].command.SetOverride?
              && o == Overriding(fc, ops[k].command) && t <= ops[k].command.later + DAY
  {
    OverrideRefinesLog(fc, ops + [CleanUp(t)], o);
    OverrideActiveSnoc(fc, ops, CleanUp(t), o);
    var k: nat :| OverrideStands(fc, ops, k, o);
  }

  lemma ReplaySnoc(fc: Config.FanControl, st: Store, ops: seq<Op>, op: Op)
    ensures Replay(fc, st, ops + [op]) == Perform(fc, Replay(fc, st, ops), op)
  {
    assert (ops + [op])[..|ops|] == ops;
  }

  /** Every override in a store was clamped when it was set. */
  ghost predicate Banded(fc: Config.FanControl, st: Store) {
    st.override.Some? ==> fc.Clamp(st.override.value.speed) == st.override.value.speed
  }

  lemma {:induction false} BandKept(fc: Config.FanControl, st: Store, ops: seq<Op>)
    requires Banded(fc, st) && fc.minSpeed <= fc.maxSpeed
    ensures Banded(fc, Replay(fc, st, ops))
    decreases |ops|
  {
    if |ops| > 0 {
      BandKept(fc, st, ops[..|ops| - 1]);
    }
  }
}
