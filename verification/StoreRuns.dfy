/** Hints, override and history over whole runs: they are what the log of the run says they are. */
module StoreRuns {
  import opened Basics
  import opened Bmc
  import opened Control
  import Config
  import FailSafe
  import History
  import Store

  /** Does this tick record its reading, and so trim the history and clean the store? */
  predicate Records(s: State, i: Input) {
    var s1 := Retry(s, i.retryOk);
    i.read.Some? && !(s1.fs.cause.SensorLoss? && s1.fs.restoreConfirmed && !i.reclaimOk)
  }

  function Calls(cs: seq<Store.Command>): seq<Store.Op> {
    seq(|cs|, k requires 0 <= k < |cs| => Store.Call(cs[k]))
  }

  function CleanOf(s: State, i: Input): seq<Store.Op> {
    if Records(s, i) then [Store.CleanUp(i.clock.clean)] else []
  }

  /** What one event does to the store, as log entries. */
  function OpsOf(s: State, e: Event): seq<Store.Op> {
    match e
    case Tick(i) => CleanOf(s, i) + Calls(i.between)
    case Call(c) => [Store.Call(c)]
  }

  ghost function StoreLog(cfg: Config.Config, s: State, es: seq<Event>): seq<Store.Op> {
    if es == [] then []
    else StoreLog(cfg, s, es[..|es| - 1]) + OpsOf(Run(cfg, s, es[..|es| - 1]), es[|es| - 1])
  }

  ghost function Samples(cfg: Config.Config, s: State, es: seq<Event>): seq<History.Sample> {
    if es == [] then []
    else
      var before, e := Run(cfg, s, es[..|es| - 1]), es[|es| - 1];
      Samples(cfg, s, es[..|es| - 1])
      + if e.Tick? && Records(before, e.input) then [SampleOf(cfg, e.input.read.value, e.input.clock)] else []
  }

  lemma SenseRecords(cfg: Config.Config, s: State, i: Input)
    ensures var s' := Sense(cfg, s, i).state;
      && s'.store == (if Records(s, i) then Store.Clean(s.store, i.clock.clean) else s.store)
      && s'.history == (if Records(s, i) then History.Record(s.history, SampleOf(cfg, i.read.value, i.clock)) else s.history)
      && s'.lastReading == (if Records(s, i) then i.read else s.lastReading)
      && (Sense(cfg, s, i).decides.Some? ==> Records(s, i))
  {
  }

  /** What a tick records: a healthy reading, unless the tick was turned away by a failed reclaim. */
  lemma TickRecords(cfg: Config.Config, s: State, i: Input)
    ensures var s' := TickStep(cfg, s, i);
      && s'.store == Store.ApplyAll(cfg.fan, if Records(s, i) then Store.Clean(s.store, i.clock.clean) else s.store, i.between)
      && s'.history == (if Records(s, i) then History.Record(s.history, SampleOf(cfg, i.read.value, i.clock)) else s.history)
      && s'.lastReading == (if Records(s, i) then i.read else s.lastReading)
  {
    SenseRecords(cfg, s, i);
  }

  lemma {:induction false} ReplayCalls(fc: Config.FanControl, st: Store.Store, ops: seq<Store.Op>, cs: seq<Store.Command>)
    ensures Store.Replay(fc, st, ops + Calls(cs)) == Store.ApplyAll(fc, Store.Replay(fc, st, ops), cs)
    decreases |cs|
  {
    if cs == [] {
      assert ops + Calls(cs) == ops;
    } else {
      var init, last := cs[..|cs| - 1], cs[|cs| - 1];
      ReplayCalls(fc, st, ops, init);
      assert ops + Calls(cs) == (ops + Calls(init)) + [Store.Call(last)];
      Store.ReplaySnoc(fc, st, ops + Calls(init), Store.Call(last));
    }
  }

  lemma ReplayTick(cfg: Config.Config, st0: Store.Store, s: State, i: Input, ops: seq<Store.Op>)
    requires s.store == Store.Replay(cfg.fan, st0, ops)
    ensures TickStep(cfg, s, i).store == Store.Replay(cfg.fan, st0, ops + OpsOf(s, Tick(i)))
  {
    TickRecords(cfg, s, i);
    hide TickStep, Records, Store.Apply, Store.Clean, Calls;
    var cleaned := ops + CleanOf(s, i);
    if Records(s, i) {
      Store.ReplaySnoc(cfg.fan, st0, ops, Store.CleanUp(i.clock.clean));
    } else {
      assert cleaned == ops;
    }
    ReplayCalls(cfg.fan, st0, cleaned, i.between);
    assert ops + OpsOf(s, Tick(i)) == cleaned + Calls(i.between);
  }

  /** The store after any run is the replay of the run's commands and clean-ups. */
  lemma {:induction false} StoreIsReplay(cfg: Config.Config, s: State, es: seq<Event>)
    ensures Run(cfg, s, es).store == Store.Replay(cfg.fan, s.store, StoreLog(cfg, s, es))
    decreases |es|
  {
    if es != [] {
      var before, e := Run(cfg, s, es[..|es| - 1]), es[|es| - 1];
      var ops := StoreLog(cfg, s, es[..|es| - 1]);
      StoreIsReplay(cfg, s, es[..|es| - 1]);
      match e {
        case Call(c) => Store.ReplaySnoc(cfg.fan, s.store, ops, Store.Call(c));
        case Tick(i) => ReplayTick(cfg, s.store, before, i, ops);
      }
    }
  }

  /** After any run from boot a hint is active exactly when the log registered it and nothing since
      replaced it, removed it or found it expired. */
  lemma HintsAreTheirLog(cfg: Config.Config, mode: Mode, enabled: bool, es: seq<Event>, source: string, h: Store.Hint)
    ensures var s, ops := FailSafe.Reached(cfg, mode, enabled, es), StoreLog(cfg, Boot(mode, enabled), es);
            (source in s.store.hints && s.store.hints[source] == h) <==> Store.HintActive(ops, source, h)
  {
    StoreIsReplay(cfg, Boot(mode, enabled), es);
    Store.StoreRefinesLog(cfg.fan, StoreLog(cfg, Boot(mode, enabled), es), source, h);
  }

  /** Every hint or override a deciding tick honours was put in while the tick was running, or was
      unexpired at its clean-up; such an override was set no more than a day before. */
  lemma DecisionsUseLiveEntries(cfg: Config.Config, mode: Mode, enabled: bool, es: seq<Event>, i: Input)
    requires Sense(cfg, FailSafe.Reached(cfg, mode, enabled, es), i).decides.Some?
    ensures var s := FailSafe.Reached(cfg, mode, enabled, es);
            var st := CallAll(cfg, Sense(cfg, s, i).state, i.between).store;
            var ops := StoreLog(cfg, Boot(mode, enabled), es);
      && (st.override.Some? ==>
            || (exists c <- i.between :: c.SetOverride? && Store.Overriding(cfg.fan, c) == st.override.value)
            || (exists k :: 0 <= k < |ops| && ops[k].Call? && ops[k].command.SetOverride?
                  && st.override.value == Store.Overriding(cfg.fan, ops[k].command)
                  && !st.override.value.ExpiredAt(i.clock.clean)
                  && i.clock.clean <= ops[k].command.later + DAY))
      && (forall source <- st.hints ::
            || !st.hints[source].ExpiredAt(i.clock.clean)
            || (exists c <- i.between :: c.AddHint? && Store.Registered(c) == st.hints[source]))
  {
    var s, ops := FailSafe.Reached(cfg, mode, enabled, es), StoreLog(cfg, Boot(mode, enabled), es);
    SenseRecords(cfg, s, i);
    StoreIsReplay(cfg, Boot(mode, enabled), es);
    var sensed := Sense(cfg, s, i).state.store;
    CallsOnlyAdd(cfg.fan, sensed, i.between);
    if sensed.override.Some? {
      Store.ReplaySnoc(cfg.fan, Store.Empty, ops, Store.CleanUp(i.clock.clean));
      Store.OverrideWithinADay(cfg.fan, ops, i.clock.clean, sensed.override.value);
    }
  }

  /** The clean-ups of a run, in its order. */
  ghost predicate CleansAdvance(es: seq<Event>) {
    forall j, k :: 0 <= j < k < |es| && es[j].Tick? && es[k].Tick? ==> es[j].input.clock.clean <= es[k].input.clock.clean
  }

  /** Every clean-up in the log of a run is that of one of its ticks. */
  lemma {:induction false} CleansAreTicks(cfg: Config.Config, s: State, es: seq<Event>)
    ensures forall m :: 0 <= m < |StoreLog(cfg, s, es)| && StoreLog(cfg, s, es)[m].CleanUp? ==>
      exists k :: 0 <= k < |es| && es[k].Tick? && es[k].input.clock.clean == StoreLog(cfg, s, es)[m].at
    decreases |es|
  {
    hide Run;
    if es != [] {
      var init, e := es[..|es| - 1], es[|es| - 1];
      CleansAreTicks(cfg, s, init);
      var log, ops := StoreLog(cfg, s, init), StoreLog(cfg, s, es);
      forall m | 0 <= m < |ops| && ops[m].CleanUp?
        ensures exists k :: 0 <= k < |es| && es[k].Tick? && es[k].input.clock.clean == ops[m].at
      {
        if m < |log| {
          assert ops[m] == log[m];
          var k :| 0 <= k < |init| && init[k].Tick? && init[k].input.clock.clean == log[m].at;
          assert es[k] == init[k];
        } else {
          assert e.Tick? && es[|es| - 1].input.clock.clean == ops[m].at;
        }
      }
    }
  }

  lemma {:induction false} LogCleansInOrder(cfg: Config.Config, s: State, es: seq<Event>)
    requires CleansAdvance(es)
    ensures Store.CleansInOrder(StoreLog(cfg, s, es))
    decreases |es|
  {
    hide Run;
    if es != [] {
      var init, e := es[..|es| - 1], es[|es| - 1];
      LogCleansInOrder(cfg, s, init);
      CleansAreTicks(cfg, s, init);
      var log, ops := StoreLog(cfg, s, init), StoreLog(cfg, s, es);
      forall i, j | 0 <= i < j < |ops| && ops[i].CleanUp? && ops[j].CleanUp? ensures ops[i].at <= ops[j].at {
        assert i < |log| ==> ops[i] == log[i];
        assert j < |log| ==> ops[j] == log[j];
      }
    }
  }

  /** Over runs on a clock that never goes back: a hint whose registration is the latest call about its
      source is active if and only if no clean-up followed or the last one found it unexpired. */
  lemma LastCleanDecidesOverRuns(cfg: Config.Config, mode: Mode, enabled: bool, es: seq<Event>, k: nat, source: string)
    requires CleansAdvance(es)
    requires var ops := StoreLog(cfg, Boot(mode, enabled), es);
      && k < |ops| && ops[k].Call? && ops[k].command.AddHint? && ops[k].command.source == source
      && (forall j :: k < j < |ops| ==> !Store.Concerns(ops[j], source))
    ensures var ops, hints := StoreLog(cfg, Boot(mode, enabled), es), FailSafe.Reached(cfg, mode, enabled, es).store.hints;
            var last := Store.LastCleanAfter(ops, k);
      && (source in hints <==> last.None? || !Store.Registered(ops[k].command).ExpiredAt(last.value))
      && (source in hints ==> hints[source] == Store.Registered(ops[k].command))
  {
    hide Run, StoreLog;
    LogCleansInOrder(cfg, Boot(mode, enabled), es);
    StoreIsReplay(cfg, Boot(mode, enabled), es);
    Store.LastCleanDecides(cfg.fan, StoreLog(cfg, Boot(mode, enabled), es), k, source);
  }

  // ----- How long a hint or an override lasts -----

  /** Some tick of the run recorded its reading and cleaned up after instant t. */
  ghost predicate CleanedAfter(cfg: Config.Config, s: State, es: seq<Event>, t: Time) {
    exists k :: 0 <= k < |es| && CleansAfter(cfg, s, es, k, t)
  }

  ghost predicate CleansAfter(cfg: Config.Config, s: State, es: seq<Event>, k: nat, t: Time)
    requires k < |es|
  {
    es[k].Tick? && es[k].input.clock.clean > t && Records(Run(cfg, s, es[..k]), es[k].input)
  }

  lemma CleanedAfterSnoc(cfg: Config.Config, s: State, es: seq<Event>, t: Time)
    requires es != []
    ensures var init, e := es[..|es| - 1], es[|es| - 1];
      CleanedAfter(cfg, s, es, t) <==>
        || CleanedAfter(cfg, s, init, t)
        || (e.Tick? && e.input.clock.clean > t && Records(Run(cfg, s, init), e.input))
  {
    hide Run, Records;
    var n := |es| - 1;
    forall k | 0 <= k < n ensures CleansAfter(cfg, s, es, k, t) <==> CleansAfter(cfg, s, es[..n], k, t) {
      assert es[..n][..k] == es[..k];
    }
    assert CleansAfter(cfg, s, es, n, t) <==>
      es[n].Tick? && es[n].input.clock.clean > t && Records(Run(cfg, s, es[..n]), es[n].input);
  }

  predicate AboutOverride(c: Store.Command) {
    c.SetOverride? || c.ClearOverride?
  }

  predicate AboutHint(c: Store.Command, source: string) {
    (c.AddHint? || c.RemoveHint?) && c.source == source
  }

  ghost predicate OverrideUntouched(e: Event) {
    match e
    case Tick(i) => forall k :: 0 <= k < |i.between| ==> !AboutOverride(i.between[k])
    case Call(c) => !AboutOverride(c)
  }

  ghost predicate HintUntouched(e: Event, source: string) {
    match e
    case Tick(i) => forall k :: 0 <= k < |i.between| ==> !AboutHint(i.between[k], source)
    case Call(c) => !AboutHint(c, source)
  }

  lemma {:induction false} OtherCallsKeepOverride(fc: Config.FanControl, st: Store.Store, cs: seq<Store.Command>)
    requires forall k :: 0 <= k < |cs| ==> !AboutOverride(cs[k])
    ensures Store.ApplyAll(fc, st, cs).override == st.override
    decreases |cs|
  {
    if cs != [] {
      OtherCallsKeepOverride(fc, st, cs[..|cs| - 1]);
    }
  }

  /** Is this source's hint in the store, and which? */
  function HintOf(st: Store.Store, source: string): Option<Store.Hint> {
    if source in st.hints then Some(st.hints[source]) else None
  }

  lemma {:induction false} OtherCallsKeepHint(fc: Config.FanControl, st: Store.Store, cs: seq<Store.Command>, source: string)
    requires forall k :: 0 <= k < |cs| ==> !AboutHint(cs[k], source)
    ensures HintOf(Store.ApplyAll(fc, st, cs), source) == HintOf(st, source)
    decreases |cs|
  {
    if cs != [] {
      OtherCallsKeepHint(fc, st, cs[..|cs| - 1], source);
    }
  }

  /** An override gets the speed asked for, within the limits, and lasts the time asked for, or a day if that
      is none or more: until it is set or cleared again, it is in force exactly as long as no tick has
      cleaned up after its end. */
  lemma {:induction false} OverrideLasts(cfg: Config.Config, s: State, c: Store.Command, es: seq<Event>)
    requires c.SetOverride? && cfg.fan.minSpeed <= cfg.fan.maxSpeed
    requires forall k :: 0 <= k < |es| ==> OverrideUntouched(es[k])
    ensures var s1 := CallStep(cfg, s, c);
            var end := c.later + if 0 < c.duration <= 86_400_000_000_000 then c.duration else 86_400_000_000_000;
            Run(cfg, s1, es).store.override ==
              if CleanedAfter(cfg, s1, es, end) then None
              else Some(Store.Override(Within(cfg.fan.minSpeed, cfg.fan.maxSpeed, c.speed), c.reason, c.now, end))
    decreases |es|
  {
    if es != [] {
      var s1, init, e := CallStep(cfg, s, c), es[..|es| - 1], es[|es| - 1];
      OverrideLasts(cfg, s, c, init);
      CleanedAfterSnoc(cfg, s1, es, c.later + if 0 < c.duration <= DAY then c.duration else DAY);
      assert OverrideUntouched(e);
      if e.Tick? {
        var before := Run(cfg, s1, init);
        TickRecords(cfg, before, e.input);
        OtherCallsKeepOverride(cfg.fan, if Records(before, e.input) then Store.Clean(before.store, e.input.clock.clean) else before.store, e.input.between);
      }
      hide TickStep, Records, CleanedAfter, CallStep, Store.ApplyAll;
    }
  }

  /** A hint asks for 45, 25 or 15 percent (25 for an unknown intensity), and until its source adds or
      removes one again it is active exactly as long as no tick has cleaned up after its end, if it has one. */
  lemma {:induction false} HintLasts(cfg: Config.Config, s: State, c: Store.Command, es: seq<Event>)
    requires c.AddHint?
    requires forall k :: 0 <= k < |es| ==> HintUntouched(es[k], c.source)
    ensures var s1, floor := CallStep(cfg, s, c), if c.intensity == "high" then 45 else if c.intensity == "low" then 15 else 25;
            HintOf(Run(cfg, s1, es).store, c.source) ==
              if c.expiresAt.Some? && CleanedAfter(cfg, s1, es, c.expiresAt.value) then None
              else Some(Store.Hint(c.source, c.intensity, floor, c.now, c.expiresAt))
    decreases |es|
  {
    if es != [] {
      var s1, init, e := CallStep(cfg, s, c), es[..|es| - 1], es[|es| - 1];
      HintLasts(cfg, s, c, init);
      if c.expiresAt.Some? {
        CleanedAfterSnoc(cfg, s1, es, c.expiresAt.value);
      }
      assert HintUntouched(e, c.source);
      if e.Tick? {
        var before := Run(cfg, s1, init);
        TickRecords(cfg, before, e.input);
        OtherCallsKeepHint(cfg.fan, if Records(before, e.input) then Store.Clean(before.store, e.input.clock.clean) else before.store, e.input.between, c.source);
      }
      hide TickStep, Records, CleanedAfter, CallStep, Store.ApplyAll;
    }
  }

  // ----- What a tick keeps of the history -----

  lemma {:induction false} AfterCounts(points: seq<History.Point>, cutoff: Time, p: History.Point)
    ensures multiset(History.After(points, cutoff))[p] == if p.at > cutoff then multiset(points)[p] else 0
    decreases |points|
  {
    if points != [] {
      var init, last := points[..|points| - 1], points[|points| - 1];
      AfterCounts(init, cutoff, p);
      assert points == init + [last];
    }
  }

  /** A recording tick adds its reading to both histories and keeps what is younger than the configured
      retention, nothing else. */
  lemma RetentionIsKept(cfg: Config.Config, s: State, i: Input, p: History.Point)
    requires Records(s, i)
    ensures var h, h', read := s.history, TickStep(cfg, s, i).history, i.read.value;
            var kept := p.at > i.clock.trim - cfg.historyRetention * 1_000_000_000;
      && multiset(h'.cpu)[p] == (if kept then multiset(h.cpu)[p] + (if p == History.Point(read.cpuMax, i.clock.reading) then 1 else 0) else 0)
      && multiset(h'.gpu)[p] == (if kept then multiset(h.gpu)[p] + (if p == History.Point(read.gpuMax, i.clock.reading) then 1 else 0) else 0)
  {
    TickRecords(cfg, s, i);
    var sample := SampleOf(cfg, i.read.value, i.clock);
    hide TickStep, Sense, Records, History.After, Store.Apply, Store.Clean;
    OneMorePoint(s.history.cpu, History.Point(sample.reading.cpuMax, sample.at), sample.cutoff, p);
    OneMorePoint(s.history.gpu, History.Point(sample.reading.gpuMax, sample.at), sample.cutoff, p);
  }

  lemma OneMorePoint(points: seq<History.Point>, added: History.Point, cutoff: Time, p: History.Point)
    ensures multiset(History.After(points + [added], cutoff))[p]
         == if p.at > cutoff then multiset(points)[p] + (if p == added then 1 else 0) else 0
  {
    AfterCounts(points + [added], cutoff, p);
  }

  lemma {:induction false} CallsOnlyAdd(fc: Config.FanControl, st: Store.Store, cs: seq<Store.Command>)
    ensures var st' := Store.ApplyAll(fc, st, cs);
      && (st'.override.Some? ==>
            || st'.override == st.override
            || (exists c <- cs :: c.SetOverride? && Store.Overriding(fc, c) == st'.override.value))
      && (forall source <- st'.hints ::
            || (source in st.hints && st.hints[source] == st'.hints[source])
            || (exists c <- cs :: c.AddHint? && Store.Registered(c) == st'.hints[source]))
    decreases |cs|
  {
    if cs != [] {
      var init, last := cs[..|cs| - 1], cs[|cs| - 1];
      CallsOnlyAdd(fc, st, init);
      assert last in cs && forall c <- init :: c in cs;
    }
  }

  /** The histories after any run are the recorded samples, trimmed one by one. */
  lemma {:induction false} HistoryIsRecorded(cfg: Config.Config, mode: Mode, enabled: bool, es: seq<Event>)
    ensures FailSafe.Reached(cfg, mode, enabled, es).history
         == History.RecordAll(Samples(cfg, Boot(mode, enabled), es))
    decreases |es|
  {
    if es != [] {
      var init, e := es[..|es| - 1], es[|es| - 1];
      HistoryIsRecorded(cfg, mode, enabled, init);
      var before, samples := FailSafe.Reached(cfg, mode, enabled, init), Samples(cfg, Boot(mode, enabled), init);
      if e.Tick? && Records(before, e.input) {
        History.RecordAllSnoc(samples, SampleOf(cfg, e.input.read.value, e.input.clock));
      } else {
        assert samples + [] == samples;
      }
      if e.Tick? {
        TickRecords(cfg, before, e.input);
      }
    }
  }

  /** On a clock that never goes back: one filter over everything recorded, sorted, in lockstep. */
  lemma HistoryOverRuns(cfg: Config.Config, mode: Mode, enabled: bool, es: seq<Event>)
    requires History.InOrder(Samples(cfg, Boot(mode, enabled), es))
    ensures var h, samples := FailSafe.Reached(cfg, mode, enabled, es).history, Samples(cfg, Boot(mode, enabled), es);
      && (samples == [] ==> h == History.NoHistory)
      && (samples != [] ==>
            var cutoff := samples[|samples| - 1].cutoff;
            h == History.History(History.After(History.CpuLog(samples), cutoff), History.After(History.GpuLog(samples), cutoff)))
      && History.Sorted(h.cpu) && History.Sorted(h.gpu) && History.Lockstep(h.cpu, h.gpu)
  {
    var samples := Samples(cfg, Boot(mode, enabled), es);
    HistoryIsRecorded(cfg, mode, enabled, es);
    if samples != [] {
      History.TrimmingIsFiltering(samples);
    }
    History.HistoriesSorted(samples);
    History.HistoriesInLockstep(samples);
  }
}
