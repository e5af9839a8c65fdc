/**
 The shutdown choke point (cmd/controller/main.go): the control-loop goroutine, which is the
 controller of module Control taken one BMC command at a time, with its panic handler; the main
 goroutine; and the API goroutine. They share the BMC, one restore-once guard and one error
 channel, in every interleaving.
 */
module Shutdown {
  import opened Basics
  import opened Bmc
  import opened Control
  import opened Protocol
  import opened TickCommands
  import Config
  import FailSafe
  import Store

  /** restoreOnce: the closure over sync.Once and firstErr. */
  class RestoreOnce {
    var bmc: Bmc
    var used: bool
    var failed: bool

    constructor (bmc: Bmc)
      ensures this.bmc == bmc && !used && !failed
    {
      this.bmc := bmc;
      used, failed := false, false;
    }

    /** `ok` is how the BMC would answer; only the first call asks it. */
    method Call(ok: bool) returns (err: bool)
      modifies this
      ensures used && failed == err
      ensures !old(used) ==> bmc == old(bmc).Execute(RestoreAuto, ok) && err == !ok
      ensures old(used) ==> bmc == old(bmc) && err == old(failed)
    {
      if !used {
        bmc := bmc.Execute(RestoreAuto, ok);
        failed := !ok;
        used := true;
      }
      err := failed;
    }

    /** All callers get the first caller's result, and the BMC is asked once. */
    method CallAll(answers: seq<bool>) returns (errs: seq<bool>)
      requires !used && answers != []
      modifies this
      ensures |errs| == |answers| && forall k :: 0 <= k < |errs| ==> errs[k] == !answers[0]
      ensures bmc == old(bmc).Execute(RestoreAuto, answers[0])
    {
      errs := [];
      for n := 0 to |answers|
        invariant |errs| == n && forall k :: 0 <= k < n ==> errs[k] == !answers[0]
        invariant if n == 0 then !used && bmc == old(bmc)
                  else used && failed == !answers[0] && bmc == old(bmc).Execute(RestoreAuto, answers[0])
      {
        var err := Call(answers[n]);
        errs := errs + [err];
      }
    }
  }

  // ----- The goroutines as a transition system -----

  datatype Caller = Loop | Main

  datatype Once = Unused | Running(caller: Caller) | Done(ok: bool, caller: Caller)

  /** The control-loop goroutine: before it asks for manual mode, before its first tick, in a tick of
      which it has sent some commands, waiting for the ticker or the stop channel, or in its deferred
      handler (Recovering, until restore has returned). */
  datatype LoopAt =
    | Launching
    | FirstTick
    | InTick(input: Input, sent: nat)
    | BetweenTicks
    | Recovering
    | Reporting(ok: bool)
    | Ended

  datatype MainAt = Waiting | Restoring | Restored(ok: bool) | Exited(ok: bool)

  datatype System = System(
    bmc: Bmc,
    ctl: State,             // the controller when its current tick began
    once: Once,
    restores: nat,          // how often the guarded restore was started
    loopLog: seq<Attempt>,  // what the loop has sent
    mark: nat,              // how much of that it had sent when the guarded restore returned
    loop: LoopAt,
    main: MainAt,
    errors: nat,            // reports in the error channel, which holds one
    stopped: bool)
  {
    /** What the loop sent once the guarded restore had returned. */
    function Afterwards(): seq<Attempt> {
      if once.Done? && mark <= |loopLog| then loopLog[mark..] else []
    }
  }

  datatype Step =
    | AskManual(ok: bool)
    | BeginTick(input: Input)
    | SendNext
    | EndTick
    | LoopReturns
    | Panic
    | ApiCall(command: Store.Command)
    | EnterRestore(caller: Caller)
    | FinishRestore(ok: bool)
    | TakeResult(caller: Caller)
    | ReportPanic
    | ApiFails
    | Signal
    | ReceiveError
    | Exit

  function Initial(mode: Mode): System {
    System(Bmc(mode, []), Fresh(mode), Unused, 0, [], 0, Launching, Waiting, 0, false)
  }

  /** The commands of the tick in flight, and the answers it gets. */
  ghost function Commands(cfg: Config.Config, ctl: State, i: Input): seq<Attempt> {
    Script(cfg, ctl.fs, i, TickStep(cfg, ctl, i).drive.target)
  }

  ghost predicate Enabled(cfg: Config.Config, s: System, step: Step) {
    && !s.main.Exited?
    && match step
       case AskManual(_) => s.loop == Launching
       case BeginTick(_) => s.loop == FirstTick || s.loop == BetweenTicks
       case SendNext => s.loop.InTick? && s.loop.sent < |Commands(cfg, s.ctl, s.loop.input)|
       case EndTick => s.loop.InTick? && s.loop.sent == |Commands(cfg, s.ctl, s.loop.input)|
       case LoopReturns => s.loop == BetweenTicks && s.stopped
       case Panic => !LoopIsOver(s.loop)
       case ApiCall(_) => !s.loop.InTick?
       case EnterRestore(Loop) => s.loop == Recovering && s.once == Unused
       case EnterRestore(Main) => s.main == Restoring && s.once == Unused
       case FinishRestore(_) => s.once.Running?
       case TakeResult(Loop) => s.loop == Recovering && s.once.Done?
       case TakeResult(Main) => s.main == Restoring && s.once.Done?
       case ReportPanic => s.loop.Reporting? && s.errors == 0
       case ApiFails => s.errors == 0
       case Signal => s.main == Waiting
       case ReceiveError => s.main == Waiting && s.errors > 0
       case Exit => s.main.Restored?
  }

  function LoopSends(s: System, a: Attempt): System {
    s.(bmc := s.bmc.Execute(a.command, a.ok), loopLog := s.loopLog + [a])
  }

  /** Main stops the controller on the way from waiting to restoring. A closed stop channel ends the
      loop only when it is between ticks, and a due tick can still win the select. API calls during a tick
      are part of its input; any others take effect at once. */
  ghost function Next(cfg: Config.Config, s: System, step: Step): System
    requires Enabled(cfg, s, step)
  {
    match step
    case AskManual(ok) =>
      LoopSends(s, Attempt(EnableManual, ok)).(loop := FirstTick, ctl := s.ctl.(bmc := s.ctl.bmc.Execute(EnableManual, ok)))
    case BeginTick(i) => s.(loop := InTick(i, 0))
    case SendNext =>
      LoopSends(s, Commands(cfg, s.ctl, s.loop.input)[s.loop.sent]).(loop := s.loop.(sent := s.loop.sent + 1))
    case EndTick => s.(loop := BetweenTicks, ctl := TickStep(cfg, s.ctl, s.loop.input))
    case LoopReturns => s.(loop := Ended)
    case Panic => s.(loop := Recovering)
    case ApiCall(c) => s.(ctl := CallStep(cfg, s.ctl, c))
    case EnterRestore(caller) => s.(once := Running(caller), restores := s.restores + 1)
    case FinishRestore(ok) =>
      s.(bmc := s.bmc.Execute(RestoreAuto, ok), once := Done(ok, s.once.caller), mark := |s.loopLog|)
    case TakeResult(Loop) => s.(loop := Reporting(s.once.ok))
    case TakeResult(Main) => s.(main := Restored(s.once.ok))
    case ReportPanic => s.(loop := Ended, errors := 1)
    case ApiFails => s.(errors := 1)
    case Signal => s.(main := Restoring, stopped := true)
    case ReceiveError => s.(main := Restoring, stopped := true, errors := s.errors - 1)
    case Exit => s.(main := Exited(s.main.ok))
  }

  /** Where these steps lead; impossible ones are skipped. */
  ghost function After(cfg: Config.Config, s: System, steps: seq<Step>): System {
    if steps == [] then s
    else
      var before, last := After(cfg, s, steps[..|steps| - 1]), steps[|steps| - 1];
      if Enabled(cfg, before, last) then Next(cfg, before, last) else before
  }

  predicate LoopIsOver(loop: LoopAt) {
    loop.Recovering? || loop.Reporting? || loop.Ended?
  }

  // ----- Invariants -----

  /** The guard and the two goroutines that share it. */
  ghost predicate GuardInv(s: System) {
    && s.restores == (if s.once.Unused? then 0 else 1)
    && s.errors <= 1
    && (s.once.Running? ==> if s.once.caller == Loop then s.loop == Recovering else s.main == Restoring && s.stopped)
    && (s.once.Done? ==> (s.once.caller == Main ==> s.stopped && !s.main.Waiting?))
    && (s.once.Done? && s.once.caller == Loop ==> LoopIsOver(s.loop) && s.Afterwards() == [])
    && (s.main.Restored? ==> s.once.Done? && s.once.ok == s.main.ok)
    && (s.main.Exited? ==> s.once.Done? && s.once.ok == s.main.ok)
    && (s.loop.Reporting? ==> s.once.Done? && s.once.ok == s.loop.ok)
    && (!s.main.Waiting? ==> s.stopped)
    && (s.loop.Ended? ==> s.stopped || s.once.Done?)
  }

  /** The real mode, from what the loop has sent since the restore. */
  ghost predicate ModeInv(s: System) {
    s.once.Done? ==>
      && s.mark <= |s.loopLog|
      && (s.once.ok ==> s.bmc.mode == ModeAfter(Auto, s.Afterwards()))
  }

  ghost predicate Unstarted(ctl: State) {
    ctl.fs == Cleared && ctl.bmc.log == [] && ctl.drive.current == 0 && !ctl.lastWriteFailed
  }

  /** What the loop has sent, against the controller it is running. */
  ghost predicate LoopInv(cfg: Config.Config, s: System) {
    match s.loop
    case Launching => Unstarted(s.ctl) && s.loopLog == []
    case InTick(i, sent) =>
      && FailSafe.Inv(cfg, s.ctl) && sent <= |Commands(cfg, s.ctl, i)|
      && s.loopLog == s.ctl.bmc.log + Commands(cfg, s.ctl, i)[..sent]
    case FirstTick => FailSafe.Inv(cfg, s.ctl) && s.loopLog == s.ctl.bmc.log && s.ctl.fs == Cleared
    case BetweenTicks => FailSafe.Inv(cfg, s.ctl) && s.loopLog == s.ctl.bmc.log
    case _ => Lawful(cfg.fan.WriteLimit(), s.loopLog)
  }

  lemma GuardStep(cfg: Config.Config, s: System, step: Step)
    requires GuardInv(s) && Enabled(cfg, s, step)
    ensures GuardInv(Next(cfg, s, step))
  {
    hide Commands, TickStep;
  }

  lemma ModeStep(cfg: Config.Config, s: System, step: Step)
    requires ModeInv(s) && Enabled(cfg, s, step)
    ensures ModeInv(Next(cfg, s, step))
  {
    hide Commands, TickStep;
    if step.AskManual? {
      SendKeepsMode(s, Attempt(EnableManual, step.ok));
    } else if step.SendNext? {
      SendKeepsMode(s, Commands(cfg, s.ctl, s.loop.input)[s.loop.sent]);
    }
  }

  lemma SendKeepsMode(s: System, a: Attempt)
    requires ModeInv(s)
    ensures ModeInv(LoopSends(s, a))
    ensures LoopSends(s, a).Afterwards() == if s.once.Done? then s.Afterwards() + [a] else []
  {
    if s.once.Done? {
      assert (s.loopLog + [a])[s.mark..] == s.loopLog[s.mark..] + [a];
      ModeSnoc(Auto, s.Afterwards(), a);
    }
  }

  lemma LoopStep(cfg: Config.Config, s: System, step: Step)
    requires LoopInv(cfg, s) && Enabled(cfg, s, step)
    ensures LoopInv(cfg, Next(cfg, s, step))
  {
    hide TickStep, Commands, FailSafe.Inv;
    var s' := Next(cfg, s, step);
    match step {
      case AskManual(ok) => BootInv(cfg, s.ctl, ok);
      case BeginTick(i) => assert s.loopLog == s.ctl.bmc.log + Commands(cfg, s.ctl, i)[..0];
      case SendNext =>
        var cs := Commands(cfg, s.ctl, s.loop.input);
        assert cs[..s.loop.sent + 1] == cs[..s.loop.sent] + [cs[s.loop.sent]];
      case EndTick =>
        var cs := Commands(cfg, s.ctl, s.loop.input);
        assert cs[..|cs|] == cs;
        EndedTick(cfg, s.ctl, s.loop.input);
      case ApiCall(c) => CalledInv(cfg, s.ctl, c);
      case Panic => LoopLogIsLawful(cfg, s);
      case LoopReturns => LoopLogIsLawful(cfg, s);
      case _ =>
    }
  }

  lemma BootInv(cfg: Config.Config, ctl: State, ok: bool)
    requires Unstarted(ctl)
    ensures FailSafe.Inv(cfg, ctl.(bmc := ctl.bmc.Execute(EnableManual, ok)))
  {
    FailSafe.Logged(cfg.fan.WriteLimit(), [], Attempt(EnableManual, ok));
  }

  lemma CalledInv(cfg: Config.Config, ctl: State, c: Store.Command)
    ensures FailSafe.Inv(cfg, ctl) ==> FailSafe.Inv(cfg, CallStep(cfg, ctl, c))
    ensures Unstarted(ctl) ==> Unstarted(CallStep(cfg, ctl, c))
  {
  }

  lemma EndedTick(cfg: Config.Config, ctl: State, i: Input)
    requires FailSafe.Inv(cfg, ctl)
    ensures FailSafe.Inv(cfg, TickStep(cfg, ctl, i))
    ensures TickStep(cfg, ctl, i).bmc.log == ctl.bmc.log + Commands(cfg, ctl, i)
  {
    hide TickStep, Script;
    FailSafe.InvStep(cfg, ctl, Tick(i));
    TickSendsScript(cfg, ctl, i);
  }

  /** At every moment, in the middle of a tick as well, what the loop has sent keeps the discipline. */
  lemma LoopLogIsLawful(cfg: Config.Config, s: System)
    requires LoopInv(cfg, s)
    ensures Lawful(cfg.fan.WriteLimit(), s.loopLog)
  {
    hide TickStep, Commands;
    if s.loop.InTick? {
      var i, sent := s.loop.input, s.loop.sent;
      EndedTick(cfg, s.ctl, i);
      var whole := TickStep(cfg, s.ctl, i).bmc.log;
      assert s.loopLog == whole[..|s.ctl.bmc.log| + sent];
      PrefixLawful(cfg.fan.WriteLimit(), whole, |s.ctl.bmc.log| + sent);
    }
  }

  ghost predicate Inv(cfg: Config.Config, s: System) {
    GuardInv(s) && ModeInv(s) && LoopInv(cfg, s)
  }

  lemma {:induction false} InvFrom(cfg: Config.Config, s: System, steps: seq<Step>)
    requires Inv(cfg, s)
    ensures Inv(cfg, After(cfg, s, steps))
    decreases |steps|
  {
    if steps != [] {
      InvFrom(cfg, s, steps[..|steps| - 1]);
      hide Enabled, Next, GuardInv, ModeInv, LoopInv;
      var before, last := After(cfg, s, steps[..|steps| - 1]), steps[|steps| - 1];
      if Enabled(cfg, before, last) {
        GuardStep(cfg, before, last);
        ModeStep(cfg, before, last);
        LoopStep(cfg, before, last);
      }
    }
  }

  ghost function Reached(cfg: Config.Config, mode: Mode, steps: seq<Step>): System {
    After(cfg, Initial(mode), steps)
  }

  lemma InvRun(cfg: Config.Config, mode: Mode, steps: seq<Step>)
    ensures Inv(cfg, Reached(cfg, mode, steps))
  {
    assert Inv(cfg, Initial(mode));
    hide Inv;
    InvFrom(cfg, Initial(mode), steps);
  }

  // ----- Once, and always in the end -----

  /** In every interleaving the guarded restore starts at most once; the process exits only after it has
      returned, main and the panic handler act on that one result, and the loop never ends before the stop
      or the restore. */
  lemma RestoredExactlyOnce(cfg: Config.Config, mode: Mode, steps: seq<Step>)
    ensures var s := Reached(cfg, mode, steps);
      && s.restores <= 1
      && (s.main.Exited? ==> s.restores == 1 && s.once.Done? && s.main.ok == s.once.ok)
      && (s.loop.Reporting? ==> s.restores == 1 && s.once.Done? && s.loop.ok == s.once.ok)
      && (s.loop.Ended? ==> s.stopped || s.restores == 1)
  {
    hide Reached, LoopInv, ModeInv;
    InvRun(cfg, mode, steps);
  }

  /** A bound on the steps left before the exit, once something has made it inevitable. */
  function ToExit(s: System): nat {
    match s.main
    case Waiting =>
      if s.errors > 0 then 5
      else if s.loop.Reporting? then 6
      else if s.loop.Recovering? then (if s.once.Done? then 7 else if s.once.Running? then 8 else 9)
      else 10
    case Restoring => if s.once.Unused? then 4 else if s.once.Running? then 3 else 2
    case Restored(_) => 1
    case Exited(_) => 0
  }

  /** A caught panic, a queued error or a shutdown under way. */
  predicate ExitIsDue(s: System) {
    !s.main.Exited? && (!s.main.Waiting? || s.errors > 0 || s.loop.Reporting? || s.loop.Recovering?)
  }

  /** A panic, a failing API server, a signal and a received error make the exit due. Once it is, some
      enabled step brings it closer, and at no time does any step of any goroutine push it further away. */
  lemma ShutdownNeverStuck(cfg: Config.Config, mode: Mode, steps: seq<Step>, any: Step)
    ensures var s := Reached(cfg, mode, steps);
      && (ExitIsDue(s) ==> exists step :: Enabled(cfg, s, step) && ToExit(Next(cfg, s, step)) < ToExit(s))
      && (Enabled(cfg, s, any) ==> ToExit(Next(cfg, s, any)) <= ToExit(s))
      && (ExitIsDue(s) && Enabled(cfg, s, any) && any != Exit ==> ExitIsDue(Next(cfg, s, any)))
      && (Enabled(cfg, s, any) && (any.Panic? || any.ApiFails? || any.Signal? || any.ReceiveError?) ==> ExitIsDue(Next(cfg, s, any)))
  {
    hide Reached, LoopInv, ModeInv, Commands, TickStep;
    InvRun(cfg, mode, steps);
    var s := Reached(cfg, mode, steps);
    if ExitIsDue(s) {
      var step := TowardsExit(s);
      assert Enabled(cfg, s, step);
    }
  }

  function TowardsExit(s: System): Step {
    match s.main
    case Waiting =>
      if s.errors > 0 then ReceiveError
      else if s.loop.Reporting? then ReportPanic
      else if s.once.Done? then TakeResult(Loop)
      else if s.once.Running? then FinishRestore(true)
      else EnterRestore(Loop)
    case Restoring =>
      if s.once.Unused? then EnterRestore(Main) else if s.once.Running? then FinishRestore(true) else TakeResult(Main)
    case _ => Exit
  }

  // ----- The mode at exit -----

  /** When main exits after a successful restore, the BMC is in auto if and only if the loop got no manual
      mode acknowledged since, or its own log ends handed back. */
  lemma ModeAtExit(cfg: Config.Config, mode: Mode, steps: seq<Step>)
    ensures var s := Reached(cfg, mode, steps);
      s.main == Exited(true) ==>
        (s.bmc.mode == Auto <==> NoEnables(s.Afterwards()) || PhaseOf(cfg.fan.WriteLimit(), s.loopLog).HandedBack?)
  {
    hide Reached;
    InvRun(cfg, mode, steps);
    var s := Reached(cfg, mode, steps);
    hide LoopInv;
    if s.main == Exited(true) {
      LoopLogIsLawful(cfg, s);
      LawfulTailMode(cfg.fan.WriteLimit(), s.loopLog, s.mark);
    }
  }

  /** If the panic handler ran the restore and it was acknowledged, the BMC is in auto from then on: the loop
      sends nothing more. */
  lemma PanicPathEndsInAuto(cfg: Config.Config, mode: Mode, steps: seq<Step>)
    ensures var s := Reached(cfg, mode, steps);
      && (s.once == Done(true, Loop) ==> s.bmc.mode == Auto && s.Afterwards() == [])
      && (s.main == Exited(true) && s.once.Done? && s.once.caller == Loop ==> s.bmc.mode == Auto)
  {
    hide Reached, LoopInv;
    InvRun(cfg, mode, steps);
  }

  function Sends(n: nat): seq<Step> {
    seq(n, _ => SendNext)
  }

  /** A tick in flight, or just begun, with the BMC in auto: its next n commands leave it in manual if and
      only if an acknowledged reclaim is among them without the hand-back that undoes it; a whole tick, if
      and only if it reclaims and does not hand back again. */
  lemma {:induction false} TickInFlightDecides(cfg: Config.Config, s: System, n: nat)
    requires Inv(cfg, s) && s.loop.InTick? && s.bmc.mode == Auto && !s.main.Exited?
    requires s.loop.sent + n <= |Commands(cfg, s.ctl, s.loop.input)|
    ensures var s' := After(cfg, s, Sends(n));
      && s'.loop == s.loop.(sent := s.loop.sent + n)
      && (s'.bmc.mode == Manual <==> LeavesManual(cfg, s.ctl.fs, s.loop.input, s.loop.sent, s.loop.sent + n))
      && (s.loop.sent == 0 && n == |Commands(cfg, s.ctl, s.loop.input)| ==>
            (s'.bmc.mode == Manual <==> Reclaiming(s.ctl.fs, s.loop.input) && !HandsBackAgain(cfg, s.loop.input)))
  {
    hide TickStep, Script, After;
    SendsMode(cfg, s, n);
    WindowMode(cfg, s.ctl.fs, s.loop.input, TickStep(cfg, s.ctl, s.loop.input).drive.target, s.loop.sent, s.loop.sent + n);
  }

  lemma {:induction false} SendsMode(cfg: Config.Config, s: System, n: nat)
    requires s.loop.InTick? && s.bmc.mode == Auto && !s.main.Exited?
    requires s.loop.sent + n <= |Commands(cfg, s.ctl, s.loop.input)|
    ensures var s', m := After(cfg, s, Sends(n)), s.loop.sent;
      && s' == s.(bmc := s'.bmc, loopLog := s'.loopLog, loop := s.loop.(sent := m + n))
      && s'.bmc.mode == ModeAfter(Auto, Commands(cfg, s.ctl, s.loop.input)[m..m + n])
  {
    hide TickStep, Commands;
    if n > 0 {
      hide ModeAfter;
      SendsMode(cfg, s, n - 1);
      assert Sends(n)[..n - 1] == Sends(n - 1);
      WindowSnoc(Commands(cfg, s.ctl, s.loop.input), s.loop.sent, s.loop.sent + n - 1);
    }
  }

  // ----- Exactly which stops are safe, whatever follows -----

  /** The loop is over, or in a write fail-safe, or in the tick whose refused write enters it with no
      acknowledged reclaim to come. */
  ghost predicate NoReclaimAhead(cfg: Config.Config, s: System) {
    match s.loop
    case Launching => false
    case FirstTick => false
    case BetweenTicks => s.ctl.fs.cause.WriteFailure?
    case InTick(i, sent) =>
      && EndsInWriteFailsafe(cfg, s.ctl.fs, i)
      && !(Reclaiming(s.ctl.fs, i) && sent <= ReclaimAt(s.ctl.fs))
    case _ => true
  }

  ghost predicate StillAuto(s: System) {
    s.once.Done? ==> NoEnables(s.Afterwards())
  }

  lemma SendsNoEnable(cfg: Config.Config, s: System)
    requires LoopInv(cfg, s) && s.loop.InTick? && NoReclaimAhead(cfg, s)
    requires s.loop.sent < |Commands(cfg, s.ctl, s.loop.input)|
    ensures !Commands(cfg, s.ctl, s.loop.input)[s.loop.sent].AcceptedEnable()
  {
    ScriptElements(cfg, s.ctl.fs, s.loop.input, TickStep(cfg, s.ctl, s.loop.input).drive.target);
    hide TickStep, Script;
  }

  lemma SendStaysAuto(s: System, a: Attempt)
    requires ModeInv(s) && StillAuto(s) && !a.AcceptedEnable()
    ensures StillAuto(LoopSends(s, a))
  {
    SendKeepsMode(s, a);
    hide ModeInv, ModeAfter;
    var after := s.Afterwards();
    if s.once.Done? {
      assert forall k :: 0 <= k < |after + [a]| ==> !(after + [a])[k].AcceptedEnable();
    }
    hide LoopSends;
  }

  lemma NoReclaimSend(cfg: Config.Config, s: System)
    requires ModeInv(s) && LoopInv(cfg, s) && Enabled(cfg, s, SendNext) && NoReclaimAhead(cfg, s) && StillAuto(s)
    ensures NoReclaimAhead(cfg, Next(cfg, s, SendNext)) && StillAuto(Next(cfg, s, SendNext))
  {
    SendsNoEnable(cfg, s);
    hide LoopInv, Commands, ModeInv, NoEnables, ReclaimAt, Reclaiming, EndsInWriteFailsafe;
    SendStaysAuto(s, Commands(cfg, s.ctl, s.loop.input)[s.loop.sent]);
  }

  lemma NoReclaimEnd(cfg: Config.Config, s: System)
    requires LoopInv(cfg, s) && Enabled(cfg, s, EndTick) && NoReclaimAhead(cfg, s) && StillAuto(s)
    ensures NoReclaimAhead(cfg, Next(cfg, s, EndTick)) && StillAuto(Next(cfg, s, EndTick))
  {
    hide TickStep, Commands, EndsInWriteFailsafe;
    WriteFailsafeAfterTick(cfg, s.ctl, s.loop.input);
  }

  lemma NoReclaimStep(cfg: Config.Config, s: System, step: Step)
    requires ModeInv(s) && LoopInv(cfg, s) && Enabled(cfg, s, step) && NoReclaimAhead(cfg, s) && StillAuto(s)
    ensures NoReclaimAhead(cfg, Next(cfg, s, step)) && StillAuto(Next(cfg, s, step))
  {
    if step.SendNext? {
      NoReclaimSend(cfg, s);
      hide Next, NoReclaimAhead, LoopInv, Enabled, StillAuto;
    } else if step.EndTick? {
      NoReclaimEnd(cfg, s);
      hide Next, NoReclaimAhead, LoopInv, Enabled, StillAuto;
    } else {
      hide LoopInv, Commands, TickStep;
    }
  }

  lemma {:induction false} NoReclaimRun(cfg: Config.Config, s: System, steps: seq<Step>)
    requires Inv(cfg, s) && NoReclaimAhead(cfg, s) && StillAuto(s)
    ensures NoReclaimAhead(cfg, After(cfg, s, steps)) && StillAuto(After(cfg, s, steps))
    decreases |steps|
  {
    if steps != [] {
      NoReclaimRun(cfg, s, steps[..|steps| - 1]);
      InvFrom(cfg, s, steps[..|steps| - 1]);
      hide ModeInv, LoopInv, GuardInv, Enabled, Next, NoReclaimAhead, StillAuto;
      var before, last := After(cfg, s, steps[..|steps| - 1]), steps[|steps| - 1];
      if Enabled(cfg, before, last) {
        NoReclaimStep(cfg, before, last);
      }
    }
  }

  // How a stop that is not safe goes wrong.

  lemma {:induction false} AfterConcat(cfg: Config.Config, s: System, a: seq<Step>, b: seq<Step>)
    ensures After(cfg, s, a + b) == After(cfg, After(cfg, s, a), b)
    decreases |b|
  {
    hide Enabled, Next;
    if b == [] {
      assert a + b == a;
    } else {
      AfterConcat(cfg, s, a, b[..|b| - 1]);
      assert (a + b)[..|a + b| - 1] == a + b[..|b| - 1];
    }
  }

  lemma AfterSnoc(cfg: Config.Config, s: System, steps: seq<Step>, step: Step) returns (more: seq<Step>)
    requires Enabled(cfg, After(cfg, s, steps), step)
    ensures more == steps + [step] && After(cfg, s, more) == Next(cfg, After(cfg, s, steps), step)
  {
    more := steps + [step];
    assert more[..|steps|] == steps;
  }

  /** Another state of the loop, of the BMC and of what was sent; the rest is the same. */
  ghost predicate OnlyLoopMoved(s: System, s': System) {
    s' == s.(bmc := s'.bmc, ctl := s'.ctl, loopLog := s'.loopLog, loop := s'.loop)
  }

  lemma {:induction false} SendAll(cfg: Config.Config, s: System, n: nat) returns (steps: seq<Step>)
    requires s.loop.InTick? && !s.main.Exited?
    requires s.loop.sent + n <= |Commands(cfg, s.ctl, s.loop.input)|
    ensures var s', m := After(cfg, s, steps), s.loop.sent + n;
      && OnlyLoopMoved(s, s') && s'.loop == s.loop.(sent := m) && s'.ctl == s.ctl
      && (n > 0 && Commands(cfg, s.ctl, s.loop.input)[m - 1].AcceptedEnable() ==> s'.bmc.mode == Manual)
  {
    hide TickStep, Commands;
    if n == 0 {
      steps := [];
    } else {
      steps := SendAll(cfg, s, n - 1);
      steps := AfterSnoc(cfg, s, steps, SendNext);
    }
  }

  /** Let the tick in flight run to its end. */
  lemma FinishTick(cfg: Config.Config, s: System) returns (steps: seq<Step>)
    requires LoopInv(cfg, s) && s.loop.InTick? && !s.main.Exited?
    ensures var s' := After(cfg, s, steps);
      OnlyLoopMoved(s, s') && s'.loop == BetweenTicks && s'.ctl == TickStep(cfg, s.ctl, s.loop.input)
  {
    hide TickStep, Commands, FailSafe.Inv;
    steps := SendAll(cfg, s, |Commands(cfg, s.ctl, s.loop.input)| - s.loop.sent);
    steps := AfterSnoc(cfg, s, steps, EndTick);
  }

  ghost predicate BetweenOrBefore(cfg: Config.Config, s: System) {
    (s.loop == BetweenTicks || s.loop == FirstTick) && FailSafe.Inv(cfg, s.ctl) && !s.main.Exited?
  }

  lemma NotExited(cfg: Config.Config, s: System)
    requires BetweenOrBefore(cfg, s)
    ensures !s.main.Exited?
  {
  }

  /** The loop takes a whole tick. */
  lemma OneTick(cfg: Config.Config, s: System, i: Input) returns (steps: seq<Step>)
    requires LoopInv(cfg, s) && BetweenOrBefore(cfg, s)
    ensures var s' := After(cfg, s, steps);
      OnlyLoopMoved(s, s') && s'.loop == BetweenTicks && s'.ctl == TickStep(cfg, s.ctl, i)
      && LoopInv(cfg, s') && BetweenOrBefore(cfg, s')
  {
    hide TickStep, Commands, FailSafe.Inv;
    var begun := AfterSnoc(cfg, s, [], BeginTick(i));
    var s1 := After(cfg, s, begun);
    LoopStep(cfg, s, BeginTick(i));
    var rest := FinishTick(cfg, s1);
    steps := begun + rest;
    AfterConcat(cfg, s, begun, rest);
    hide After, Next;
    LoopFrom(cfg, s, steps);
  }

  lemma {:induction false} LoopFrom(cfg: Config.Config, s: System, steps: seq<Step>)
    requires LoopInv(cfg, s)
    ensures LoopInv(cfg, After(cfg, s, steps))
    decreases |steps|
  {
    if steps != [] {
      LoopFrom(cfg, s, steps[..|steps| - 1]);
      hide Enabled, Next, LoopInv;
      var before, last := After(cfg, s, steps[..|steps| - 1]), steps[|steps| - 1];
      if Enabled(cfg, before, last) {
        LoopStep(cfg, before, last);
      }
    }
  }

  /** The loop can run into any number of failed reads. */
  lemma {:induction false} BlindTicksOfLoop(cfg: Config.Config, s: System, n: nat) returns (steps: seq<Step>)
    requires LoopInv(cfg, s) && BetweenOrBefore(cfg, s)
    ensures var s' := After(cfg, s, steps);
      OnlyLoopMoved(s, s') && BetweenOrBefore(cfg, s') && LoopInv(cfg, s') && s'.ctl == Run(cfg, s.ctl, FailSafe.Blinds(n))
  {
    hide TickStep, FailSafe.Inv, LoopInv;
    steps := [];
    if n > 0 {
      hide After, Run, BetweenOrBefore;
      var init := BlindTicksOfLoop(cfg, s, n - 1);
      var s1 := After(cfg, s, init);
      NotExited(cfg, s1);
      var last := OneTick(cfg, s1, FailSafe.Blind.input);
      steps := init + last;
      AfterConcat(cfg, s, init, last);
      RunSnoc(cfg, s.ctl, FailSafe.Blinds(n - 1), FailSafe.Blind);
    }
  }

  /** At a tick boundary outside the write fail-safe: as many failed reads as it takes, then one good tick
      up to its reclaim. `cut` is before that tick. */
  lemma ReclaimAhead(cfg: Config.Config, s: System) returns (cut: seq<Step>)
    requires LoopInv(cfg, s) && BetweenOrBefore(cfg, s) && !s.ctl.fs.cause.WriteFailure?
    ensures var s' := After(cfg, s, cut);
      && OnlyLoopMoved(s, s') && BetweenOrBefore(cfg, s') && LoopInv(cfg, s')
      && s'.ctl.fs.cause.SensorLoss? && s'.ctl.fs.restoreConfirmed
  {
    cut := BlindTicksOfLoop(cfg, s, cfg.fan.SensorLimit());
    hide After, Run, LoopInv;
    FailSafe.BlindsEndHandedBack(cfg, s.ctl, cfg.fan.SensorLimit());
  }

  /** A good tick up to its reclaim, from a confirmed sensor fail-safe. */
  lemma ReclaimNow(cfg: Config.Config, s: System) returns (steps: seq<Step>)
    requires BetweenOrBefore(cfg, s) && s.ctl.fs.cause.SensorLoss? && s.ctl.fs.restoreConfirmed
    ensures OnlyLoopMoved(s, After(cfg, s, steps)) && After(cfg, s, steps).bmc.mode == Manual
  {
    hide TickStep;
    var i := FailSafe.Healed.input;
    var begun := AfterSnoc(cfg, s, [], BeginTick(i));
    var rest := SendAll(cfg, After(cfg, s, begun), 1);
    AfterConcat(cfg, s, begun, rest);
    steps := begun + rest;
    hide After;
  }

  /** Whatever the loop is doing, if a reclaim can come, it can come after the restore. */
  lemma CanTurnManual(cfg: Config.Config, s: System) returns (steps: seq<Step>)
    requires LoopInv(cfg, s) && !s.main.Exited? && !NoReclaimAhead(cfg, s)
    ensures OnlyLoopMoved(s, After(cfg, s, steps)) && After(cfg, s, steps).bmc.mode == Manual
  {
    hide TickStep;
    if s.loop == Launching {
      steps := AfterSnoc(cfg, s, [], AskManual(true));
    } else if s.loop.InTick? && EndsInWriteFailsafe(cfg, s.ctl.fs, s.loop.input) {
      ScriptElements(cfg, s.ctl.fs, s.loop.input, TickStep(cfg, s.ctl, s.loop.input).drive.target);
      hide Script, After;
      steps := SendAll(cfg, s, ReclaimAt(s.ctl.fs) + 1 - s.loop.sent);
    } else {
      var first: seq<Step> := [];
      if s.loop.InTick? {
        first := FinishTick(cfg, s);
        WriteFailsafeAfterTick(cfg, s.ctl, s.loop.input);
        FailSafe.InvStep(cfg, s.ctl, Tick(s.loop.input));
      }
      var s1 := After(cfg, s, first);
      LoopFrom(cfg, s, first);
      hide After, LoopInv;
      var cut := ReclaimAhead(cfg, s1);
      var last := ReclaimNow(cfg, After(cfg, s1, cut));
      steps := first + (cut + last);
      AfterConcat(cfg, s1, cut, last);
      AfterConcat(cfg, s, first, cut + last);
    }
  }

  /** The steps can be taken one after the other. */
  ghost predicate Possible(cfg: Config.Config, s: System, steps: seq<Step>) {
    forall k :: 0 <= k < |steps| ==> Enabled(cfg, After(cfg, s, steps[..k]), steps[k])
  }

  lemma PossibleSnoc(cfg: Config.Config, s: System, steps: seq<Step>, step: Step) returns (more: seq<Step>)
    requires Possible(cfg, s, steps) && Enabled(cfg, After(cfg, s, steps), step)
    ensures more == steps + [step] && Possible(cfg, s, more) && After(cfg, s, more) == Next(cfg, After(cfg, s, steps), step)
  {
    more := AfterSnoc(cfg, s, steps, step);
    forall k | 0 <= k < |more| ensures Enabled(cfg, After(cfg, s, more[..k]), more[k]) {
      assert more[..k] == steps[..k];
    }
  }

  /** The deferred handler restores. */
  lemma HandlerRestores(cfg: Config.Config, s: System, ok: bool) returns (steps: seq<Step>)
    requires s.once == Unused && !LoopIsOver(s.loop) && !s.main.Exited?
    ensures steps == [Panic, EnterRestore(Loop), FinishRestore(ok)] && Possible(cfg, s, steps)
    ensures After(cfg, s, steps) == s.(bmc := s.bmc.Execute(RestoreAuto, ok), once := Done(ok, Loop),
              restores := s.restores + 1, mark := |s.loopLog|, loop := Recovering)
  {
    hide TickStep, Commands;
    steps := [];
    assert Possible(cfg, s, steps) && After(cfg, s, steps) == s;
    hide After, Possible;
    steps := PossibleSnoc(cfg, s, steps, Panic);
    steps := PossibleSnoc(cfg, s, steps, EnterRestore(Loop));
    steps := PossibleSnoc(cfg, s, steps, FinishRestore(ok));
  }

  /** A panic anywhere in the loop, in the middle of a tick as well, can take this course: the handler
      restores, reports, and main exits with the handler's result without asking the BMC again. */
  lemma PanicRunsToExit(cfg: Config.Config, s: System, ok: bool) returns (steps: seq<Step>)
    requires s.main == Waiting && s.once == Unused && s.errors == 0 && !LoopIsOver(s.loop)
    ensures |steps| == 8 && steps[0] == Panic && Possible(cfg, s, steps)
    ensures var s' := After(cfg, s, steps);
      && s'.main == Exited(ok) && s'.loop == Ended && s'.once == Done(ok, Loop) && s'.errors == 0
      && s'.restores == s.restores + 1 && s'.bmc == s.bmc.Execute(RestoreAuto, ok)
  {
    hide TickStep, Commands, After, Possible;
    steps := HandlerRestores(cfg, s, ok);
    steps := PossibleSnoc(cfg, s, steps, TakeResult(Loop));
    steps := PossibleSnoc(cfg, s, steps, ReportPanic);
    steps := PossibleSnoc(cfg, s, steps, ReceiveError);
    steps := PossibleSnoc(cfg, s, steps, TakeResult(Main));
    steps := PossibleSnoc(cfg, s, steps, Exit);
  }

  /** Main restores successfully and is about to exit. */
  lemma MainRestores(cfg: Config.Config, s: System) returns (steps: seq<Step>)
    requires s.main == Restoring && s.once == Unused
    ensures var s' := After(cfg, s, steps);
      s'.main == Restored(true) && s'.ctl == s.ctl && s'.loop == s.loop && s'.loopLog == s.loopLog && s'.bmc.mode == Auto
  {
    hide TickStep, Commands;
    steps := AfterSnoc(cfg, s, [], EnterRestore(Main));
    steps := AfterSnoc(cfg, s, steps, FinishRestore(true));
    steps := AfterSnoc(cfg, s, steps, TakeResult(Main));
    hide After;
  }

  lemma UnsafeStop(cfg: Config.Config, s: System) returns (rest: seq<Step>)
    requires LoopInv(cfg, s) && s.main == Restoring && s.once == Unused && !NoReclaimAhead(cfg, s)
    ensures After(cfg, s, rest).main == Exited(true) && After(cfg, s, rest).bmc.mode == Manual
  {
    hide TickStep, After, LoopInv;
    var first := MainRestores(cfg, s);
    var s1 := After(cfg, s, first);
    LoopInvOf(cfg, s, s1);
    var turn := CanTurnManual(cfg, s1);
    AfterConcat(cfg, s, first, turn);
    rest := AfterSnoc(cfg, s, first + turn, Exit);
  }

  lemma LoopInvOf(cfg: Config.Config, s: System, s': System)
    requires LoopInv(cfg, s) && s'.loop == s.loop && s'.ctl == s.ctl && s'.loopLog == s.loopLog
    ensures LoopInv(cfg, s') && (NoReclaimAhead(cfg, s') <==> NoReclaimAhead(cfg, s))
  {
    hide TickStep, Commands, FailSafe.Inv;
  }

  ghost predicate StopAt(cfg: Config.Config, s: System, stop: Step) {
    s.main == Waiting && Enabled(cfg, s, stop) && (stop.Signal? || stop.ReceiveError?)
  }

  /** Whatever happens from s on, an exit after an acknowledged restore finds the BMC in auto. */
  ghost predicate AlwaysEndsInAuto(cfg: Config.Config, s: System) {
    forall rest: seq<Step> :: After(cfg, s, rest).main == Exited(true) ==> After(cfg, s, rest).bmc.mode == Auto
  }

  /** When main stops the controller, an acknowledged restore is sure to leave the BMC in auto if and only
      if the loop is over, or is in the write fail-safe, or is in the tick whose refused write enters it and
      its acknowledged reclaim, if any, has been sent. The answers of the tick in flight are those of its
      input; everything after it is arbitrary. */
  lemma StopIsSafeExactlyWhen(cfg: Config.Config, mode: Mode, before: seq<Step>, stop: Step)
    requires StopAt(cfg, Reached(cfg, mode, before), stop)
    ensures var s := Reached(cfg, mode, before);
            AlwaysEndsInAuto(cfg, Next(cfg, s, stop)) <==> NoReclaimAhead(cfg, s)
  {
    hide Reached, TickStep, Commands;
    InvRun(cfg, mode, before);
    var s := Reached(cfg, mode, before);
    var s1 := Next(cfg, s, stop);
    hide After;
    AfterStop(cfg, s, stop);
    if NoReclaimAhead(cfg, s) {
      forall rest: seq<Step> | After(cfg, s1, rest).main == Exited(true) ensures After(cfg, s1, rest).bmc.mode == Auto {
        NoReclaimRun(cfg, s1, rest);
        InvFrom(cfg, s1, rest);
        NoEnablesStaysAuto(After(cfg, s1, rest).Afterwards());
        hide Inv, NoReclaimAhead;
      }
    } else {
      var rest := UnsafeStop(cfg, s1);
    }
  }

  lemma AfterStop(cfg: Config.Config, s: System, stop: Step)
    requires Inv(cfg, s) && StopAt(cfg, s, stop)
    ensures var s1 := Next(cfg, s, stop);
      && Inv(cfg, s1) && s1.main == Restoring && s1.stopped && s1.Afterwards() == [] && StillAuto(s1)
      && (NoReclaimAhead(cfg, s1) <==> NoReclaimAhead(cfg, s))
      && (!LoopIsOver(s.loop) ==> s1.once == Unused)
  {
    GuardStep(cfg, s, stop);
    ModeStep(cfg, s, stop);
    LoopStep(cfg, s, stop);
    hide TickStep, Commands, FailSafe.Inv;
  }

  /** At the moment of the stop nothing has been sent after a restore. */
  lemma NothingAfterwardsAtStop(cfg: Config.Config, mode: Mode, before: seq<Step>, stop: Step)
    requires StopAt(cfg, Reached(cfg, mode, before), stop)
    ensures Next(cfg, Reached(cfg, mode, before), stop).Afterwards() == []
  {
    hide Reached, Inv, Enabled, Next;
    InvRun(cfg, mode, before);
    AfterStop(cfg, Reached(cfg, mode, before), stop);
  }

  // ----- The tick in flight -----

  ghost predicate Quiet(s: System) {
    !s.loop.InTick? && s.loop != Launching && s.Afterwards() == []
  }

  lemma QuietStep(cfg: Config.Config, s: System, step: Step)
    requires Quiet(s) && Enabled(cfg, s, step) && !step.BeginTick?
    ensures Quiet(Next(cfg, s, step))
  {
    hide TickStep, Commands;
  }

  lemma {:induction false} QuietKeepsStill(cfg: Config.Config, s: System, steps: seq<Step>)
    requires Quiet(s) && forall k :: 0 <= k < |steps| ==> !steps[k].BeginTick?
    ensures Quiet(After(cfg, s, steps))
    decreases |steps|
  {
    if steps != [] {
      var before, last := After(cfg, s, steps[..|steps| - 1]), steps[|steps| - 1];
      QuietKeepsStill(cfg, s, steps[..|steps| - 1]);
      hide Enabled, Next, Quiet;
      if Enabled(cfg, before, last) {
        QuietStep(cfg, before, last);
      }
    }
  }

  /** If the loop has asked for manual mode, is not in a tick when main stops the controller, and begins
      none later, an acknowledged restore leaves the BMC in auto at exit, whoever ran it. */
  lemma QuietStopEndsInAuto(cfg: Config.Config, mode: Mode, before: seq<Step>, stop: Step, rest: seq<Step>)
    requires StopAt(cfg, Reached(cfg, mode, before), stop)
    requires !Reached(cfg, mode, before).loop.InTick? && Reached(cfg, mode, before).loop != Launching
    requires forall k :: 0 <= k < |rest| ==> !rest[k].BeginTick?
    ensures var s := After(cfg, Next(cfg, Reached(cfg, mode, before), stop), rest);
            s.main == Exited(true) ==> s.bmc.mode == Auto
  {
    hide Reached, TickStep, Commands;
    InvRun(cfg, mode, before);
    var s1 := Next(cfg, Reached(cfg, mode, before), stop);
    AfterStop(cfg, Reached(cfg, mode, before), stop);
    hide After;
    QuietKeepsStill(cfg, s1, rest);
    InvFrom(cfg, s1, rest);
    hide LoopInv;
  }

  /** A healthy tick has just begun, after a confirmed sensor fail-safe and before any shutdown. */
  ghost predicate AboutToReclaim(s: System) {
    && s.main == Waiting && s.once == Unused
    && s.loop == InTick(FailSafe.Healed.input, 0) && s.ctl.fs.cause.SensorLoss? && s.ctl.fs.restoreConfirmed
  }

  lemma ComesToReclaim(cfg: Config.Config, mode: Mode) returns (before: seq<Step>)
    ensures AboutToReclaim(Reached(cfg, mode, before))
    ensures FailSafe.CountersFit(cfg, Reached(cfg, mode, before).ctl.fs)
  {
    hide TickStep, Commands;
    var s0 := Initial(mode);
    var ask := AfterSnoc(cfg, s0, [], AskManual(true));
    var s1 := After(cfg, s0, ask);
    LoopFrom(cfg, s0, ask);
    hide After;
    var cut := ReclaimAhead(cfg, s1);
    AfterConcat(cfg, s0, ask, cut);
    before := AfterSnoc(cfg, s0, ask + cut, BeginTick(FailSafe.Healed.input));
    hide LoopInv;
  }

  lemma ReclaimsAfterRestore(cfg: Config.Config, s: System) returns (rest: seq<Step>)
    requires s.main == Restoring && s.once == Unused && FailSafe.CountersFit(cfg, s.ctl.fs)
    requires s.loop == InTick(FailSafe.Healed.input, 0) && s.ctl.fs.cause.SensorLoss? && s.ctl.fs.restoreConfirmed
    ensures var s' := After(cfg, s, rest);
            s'.main == Exited(true) && s'.bmc.mode == Manual && s'.loop == InTick(FailSafe.Healed.input, 1)
  {
    hide TickStep, After;
    var first := MainRestores(cfg, s);
    var s1 := After(cfg, s, first);
    ScriptElements(cfg, s.ctl.fs, s.loop.input, TickStep(cfg, s.ctl, s.loop.input).drive.target);
    hide Script;
    var turn := SendAll(cfg, s1, 1);
    AfterConcat(cfg, s, first, turn);
    rest := AfterSnoc(cfg, s, first + turn, Exit);
  }

  /** Why the tick in flight matters: with any configuration, a tick that is about to reclaim manual mode
      after a sensor fail-safe when the signal comes does so after the restore, and the process exits with
      the BMC in manual mode and nobody left to drive the fans. */
  lemma InFlightReclaimEndsInManual(cfg: Config.Config, mode: Mode) returns (before: seq<Step>, rest: seq<Step>)
    ensures AboutToReclaim(Reached(cfg, mode, before)) && StopAt(cfg, Reached(cfg, mode, before), Signal)
    ensures var s := After(cfg, Next(cfg, Reached(cfg, mode, before), Signal), rest);
            s.main == Exited(true) && s.bmc.mode == Manual && s.loop == InTick(FailSafe.Healed.input, 1)
  {
    before := ComesToReclaim(cfg, mode);
    hide Reached, After;
    rest := ReclaimsAfterRestore(cfg, Next(cfg, Reached(cfg, mode, before), Signal));
  }
}
