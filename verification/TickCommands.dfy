/** The commands one tick sends, in order, and the BMC mode any stretch of them leaves behind. */
module TickCommands {
  import opened Basics
  import opened Bmc
  import opened Control
  import opened Protocol
  import Config
  import FailSafe
  import History
  import SpeedLaw
  import Store

  /** A fan write, and a hand-back if that was the last failure allowed. */
  function WriteScript(cfg: Config.Config, writeFails: nat, speed: int, i: Input): seq<Attempt> {
    [Attempt(SetFan(speed), i.writeOk)]
    + if !i.writeOk && writeFails + 1 >= cfg.fan.WriteLimit() then [Attempt(RestoreAuto, i.handBackOk)] else []
  }

  function RetryScript(fs: Failsafe, i: Input): seq<Attempt> {
    if fs.RestorePending() then [Attempt(RestoreAuto, i.retryOk)] else []
  }

  /** A hand-back when the sensors have failed too often, or a reclaim when they are back. */
  function SenseScript(cfg: Config.Config, fs: Failsafe, i: Input): seq<Attempt> {
    if fs.cause.WriteFailure? then []
    else if i.read.None? then
      if fs.cause.NoFailsafe? && fs.sensorFails + 1 >= cfg.fan.SensorLimit() then [Attempt(RestoreAuto, i.handBackOk)] else []
    else if fs.cause.NoFailsafe? || !(fs.restoreConfirmed || i.retryOk) then []
    else [Attempt(EnableManual, i.reclaimOk)]
  }

  /** Does the tick get as far as a decision? */
  predicate Decides(fs: Failsafe, i: Input) {
    i.read.Some? && (fs.cause.NoFailsafe? || Reclaiming(fs, i))
  }

  /** The controller is in the write fail-safe, or the tick's write is refused once too often. */
  predicate EndsInWriteFailsafe(cfg: Config.Config, fs: Failsafe, i: Input) {
    || fs.cause.WriteFailure?
    || (Decides(fs, i) && !i.writeOk && (if fs.cause.NoFailsafe? then fs.writeFails else 0) + 1 >= cfg.fan.WriteLimit())
  }

  /** The tick reclaims manual mode after a sensor fail-safe, and the BMC acknowledges. */
  predicate Reclaiming(fs: Failsafe, i: Input) {
    fs.cause.SensorLoss? && (fs.restoreConfirmed || i.retryOk) && i.read.Some? && i.reclaimOk
  }

  /** The commands of a tick of a controller in fail-safe state `fs` that decides on `speed`. */
  function Script(cfg: Config.Config, fs: Failsafe, i: Input, speed: int): seq<Attempt> {
    RetryScript(fs, i) + SenseScript(cfg, fs, i)
    + if Decides(fs, i) then WriteScript(cfg, if fs.cause.NoFailsafe? then fs.writeFails else 0, speed, i) else []
  }

  lemma SenseSendsScript(cfg: Config.Config, s: State, i: Input)
    requires FailSafe.CountersFit(cfg, s.fs)
    ensures var sensed := Sense(cfg, s, i);
      && sensed.state.bmc.log == s.bmc.log + (RetryScript(s.fs, i) + SenseScript(cfg, s.fs, i))
      && (sensed.decides.Some? <==> Decides(s.fs, i))
      && (sensed.decides.Some? ==>
            && sensed.state.fs.cause.NoFailsafe?
            && sensed.state.fs.writeFails == if s.fs.cause.NoFailsafe? then s.fs.writeFails else 0)
  {
    hide History.Record, Store.Clean;
  }

  /** A tick sends its script and nothing else. */
  lemma TickSendsScript(cfg: Config.Config, s: State, i: Input)
    requires FailSafe.CountersFit(cfg, s.fs)
    ensures TickStep(cfg, s, i).bmc.log == s.bmc.log + Script(cfg, s.fs, i, TickStep(cfg, s, i).drive.target)
  {
    SenseSendsScript(cfg, s, i);
    hide Sense, RetryScript, SenseScript, Decides, WriteScript, Act;
    var sensed := Sense(cfg, s, i);
    Associate(s.bmc.log, RetryScript(s.fs, i) + SenseScript(cfg, s.fs, i),
              WriteScript(cfg, if s.fs.cause.NoFailsafe? then s.fs.writeFails else 0, TickStep(cfg, s, i).drive.target, i));
    if sensed.decides.Some? {
      ActSendsScript(cfg, CallAll(cfg, sensed.state, i.between), sensed.decides.value, i);
    }
  }

  lemma Associate(a: seq<Attempt>, b: seq<Attempt>, c: seq<Attempt>)
    ensures a + (b + c) == a + b + c
  {
  }

  lemma ActSendsScript(cfg: Config.Config, s: State, r: Reading, i: Input)
    requires s.fs.cause.NoFailsafe?
    ensures var s' := Act(cfg, s, r, i); s'.bmc.log == s.bmc.log + WriteScript(cfg, s.fs.writeFails, s'.drive.target, i)
  {
    hide SpeedLaw.Decide, Write;
    WriteSendsScript(cfg, Decide(cfg, s, r, i.clock.decide), i);
  }

  lemma WriteFailsafeAfterTick(cfg: Config.Config, s: State, i: Input)
    requires FailSafe.CountersFit(cfg, s.fs)
    ensures TickStep(cfg, s, i).fs.cause.WriteFailure? <==> EndsInWriteFailsafe(cfg, s.fs, i)
  {
    SenseSendsScript(cfg, s, i);
    SenseKeepsWriteCause(cfg, s, i);
    hide SpeedLaw.Decide, Sense;
  }

  lemma SenseKeepsWriteCause(cfg: Config.Config, s: State, i: Input)
    ensures Sense(cfg, s, i).state.fs.cause.WriteFailure? <==> s.fs.cause.WriteFailure?
  {
    hide History.Record, Store.Clean;
  }

  lemma WriteSendsScript(cfg: Config.Config, s: State, i: Input)
    requires s.fs.cause.NoFailsafe?
    ensures var s' := Write(cfg, s, s.drive.target, i.writeOk, i.handBackOk);
            s'.bmc.log == s.bmc.log + WriteScript(cfg, s.fs.writeFails, s.drive.target, i) && s'.drive.target == s.drive.target
  {
  }

  // ----- The mode a stretch of commands leaves behind -----

  /** The mode a BMC in mode m is in after these commands. */
  function ModeAfter(m: Mode, log: seq<Attempt>): Mode {
    if log == [] then m
    else
      var a, before := log[|log| - 1], ModeAfter(m, log[..|log| - 1]);
      if a.AcceptedEnable() then Manual else if a.AcceptedRestore() then Auto else before
  }

  lemma ModeSnoc(m: Mode, log: seq<Attempt>, a: Attempt)
    ensures ModeAfter(m, log + [a]) ==
      if a.AcceptedEnable() then Manual else if a.AcceptedRestore() then Auto else ModeAfter(m, log)
  {
    assert (log + [a])[..|log|] == log;
  }

  ghost predicate NoEnables(log: seq<Attempt>) {
    forall k :: 0 <= k < |log| ==> !log[k].AcceptedEnable()
  }

  /** For commands that keep the discipline: after the first m of them the BMC was put in auto; the rest
      leave it there if and only if they acknowledge no manual mode or the log ends handed back. */
  lemma {:induction false} LawfulTailMode(limit: nat, log: seq<Attempt>, m: nat)
    requires Lawful(limit, log) && m <= |log|
    ensures ModeAfter(Auto, log[m..]) == Auto <==> NoEnables(log[m..]) || PhaseOf(limit, log).HandedBack?
    decreases |log|
  {
    if m < |log| {
      var n := |log| - 1;
      var a := log[n];
      PrefixLawful(limit, log, n);
      LawfulTailMode(limit, log[..n], m);
      assert log[m..] == log[..n][m..] + [a];
      ModeSnoc(Auto, log[..n][m..], a);
      assert NoEnables(log[m..]) <==> NoEnables(log[..n][m..]) && !a.AcceptedEnable();
    }
  }

  // ----- Where in a tick the mode can turn manual -----

  /** Which of its commands the reclaim is. */
  function ReclaimAt(fs: Failsafe): nat {
    if fs.RestorePending() then 1 else 0
  }

  /** The first write after the reclaim fails, that is already too often, and the hand-back is acknowledged. */
  predicate HandsBackAgain(cfg: Config.Config, i: Input) {
    !i.writeOk && cfg.fan.WriteLimit() == 1 && i.handBackOk
  }

  /** The commands m to n of the tick include an acknowledged reclaim and not the hand-back that undoes it. */
  predicate LeavesManual(cfg: Config.Config, fs: Failsafe, i: Input, m: nat, n: nat) {
    var at := ReclaimAt(fs);
    Reclaiming(fs, i) && m <= at < n && !(HandsBackAgain(cfg, i) && at + 2 < n)
  }

  /** The only manual enable a tick can get acknowledged is its reclaim, two commands before the hand-back
      that can follow it. */
  lemma ScriptElements(cfg: Config.Config, fs: Failsafe, i: Input, speed: int)
    requires FailSafe.CountersFit(cfg, fs)
    ensures var script, at := Script(cfg, fs, i, speed), ReclaimAt(fs);
      && (forall k :: 0 <= k < |script| ==> (script[k].AcceptedEnable() <==> Reclaiming(fs, i) && k == at))
      && (Reclaiming(fs, i) ==>
            && at + 2 <= |script| <= at + 3
            && script[at + 1].command.SetFan?
            && (|script| == at + 3 ==> (script[at + 2].AcceptedRestore() <==> i.handBackOk))
            && (|script| == at + 3 <==> !i.writeOk && cfg.fan.WriteLimit() == 1))
  {
  }

  lemma {:induction false} NoEnablesStaysAuto(log: seq<Attempt>)
    requires NoEnables(log)
    ensures ModeAfter(Auto, log) == Auto
    decreases |log|
  {
    if log != [] {
      NoEnablesStaysAuto(log[..|log| - 1]);
    }
  }

  /** Commands m to n of a tick, sent to a BMC in auto, leave it in manual if and only if they include the
      acknowledged reclaim and not the hand-back. */
  lemma WindowMode(cfg: Config.Config, fs: Failsafe, i: Input, speed: int, m: nat, n: nat)
    requires FailSafe.CountersFit(cfg, fs) && m <= n <= |Script(cfg, fs, i, speed)|
    ensures ModeAfter(Auto, Script(cfg, fs, i, speed)[m..n]) == Manual <==> LeavesManual(cfg, fs, i, m, n)
    ensures m == 0 && n == |Script(cfg, fs, i, speed)| ==>
              (LeavesManual(cfg, fs, i, m, n) <==> Reclaiming(fs, i) && !HandsBackAgain(cfg, i))
  {
    var script, at := Script(cfg, fs, i, speed), ReclaimAt(fs);
    ScriptElements(cfg, fs, i, speed);
    assert m == 0 && n == |script| ==> (LeavesManual(cfg, fs, i, m, n) <==> Reclaiming(fs, i) && !HandsBackAgain(cfg, i));
    hide Script, ReclaimAt;
    if Reclaiming(fs, i) && m <= at < n {
      WindowSnoc(script, m, at);
      if at + 1 < n {
        WindowSnoc(script, m, at + 1);
      }
      if at + 2 < n {
        WindowSnoc(script, m, at + 2);
      }
      hide ModeAfter, Reclaiming;
      assert HandsBackAgain(cfg, i) && at + 2 < n <==> at + 2 < n && script[at + 2].AcceptedRestore();
    } else {
      NoEnablesStaysAuto(script[m..n]);
    }
  }

  lemma WindowSnoc(log: seq<Attempt>, m: nat, k: nat)
    requires m <= k < |log|
    ensures ModeAfter(Auto, log[m..k + 1]) ==
      if log[k].AcceptedEnable() then Manual else if log[k].AcceptedRestore() then Auto else ModeAfter(Auto, log[m..k])
  {
    assert log[m..k + 1] == log[m..k] + [log[k]];
    ModeSnoc(Auto, log[m..k], log[k]);
  }
}
