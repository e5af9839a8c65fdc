/**
 The command discipline the fail-safe design promises, written as an automaton over the
 commands alone: it sees neither sensors, counters nor the controller's fields.
 */
module Protocol {
  import opened Bmc

  datatype Phase =
    | Starting                          // Run has not asked for manual mode yet
    | Controlling(failedWrites: nat)    // the loop drives the fans
    | Pending(sticky: bool)             // hand-back attempted, not acknowledged
    | HandedBack(sticky: bool)          // hand-back acknowledged
    | Breach                            // a command the discipline forbids was sent

  /** One more attempt. `limit` consecutive failed fan writes make the hand-back sticky. */
  function Advance(limit: nat, p: Phase, a: Attempt): Phase {
    match p
    case Starting =>
      if a.command.EnableManual? then Controlling(0) else Breach
    case Controlling(failed) =>
      (match a.command
       case SetFan(_) =>
         if a.ok then Controlling(0)
         else if failed + 1 < limit then Controlling(failed + 1)
         else Pending(true)
       case RestoreAuto => if a.ok then HandedBack(false) else Pending(false)
       case EnableManual => Breach)
    case Pending(sticky) =>
      if !a.command.RestoreAuto? then Breach else if a.ok then HandedBack(sticky) else p
    case HandedBack(sticky) =>
      if sticky || !a.command.EnableManual? then Breach else if a.ok then Controlling(0) else p
    case Breach => Breach
  }

  function PhaseOf(limit: nat, log: seq<Attempt>): Phase {
    if log == [] then Starting
    else Advance(limit, PhaseOf(limit, log[..|log| - 1]), log[|log| - 1])
  }

  ghost predicate Lawful(limit: nat, log: seq<Attempt>) {
    PhaseOf(limit, log) != Breach
  }

  /** Acknowledged hand-backs. */
  function Restores(log: seq<Attempt>): nat {
    if log == [] then 0
    else Restores(log[..|log| - 1]) + if log[|log| - 1].AcceptedRestore() then 1 else 0
  }

  /** Acknowledged reclaims: manual enables after the one that Run issues at start. */
  function Reclaims(log: seq<Attempt>): nat {
    if |log| <= 1 then 0
    else Reclaims(log[..|log| - 1]) + if log[|log| - 1].AcceptedEnable() then 1 else 0
  }

  lemma PhaseSnoc(limit: nat, log: seq<Attempt>, a: Attempt)
    ensures PhaseOf(limit, log + [a]) == Advance(limit, PhaseOf(limit, log), a)
  {
    assert (log + [a])[..|log|] == log;
  }

  lemma {:induction false} PrefixLawful(limit: nat, log: seq<Attempt>, k: nat)
    requires Lawful(limit, log) && k <= |log|
    ensures Lawful(limit, log[..k])
    decreases |log|
  {
    if k == |log| {
      assert log[..k] == log;
    } else {
      var shorter := log[..|log| - 1];
      PrefixLawful(limit, shorter, k);
      assert shorter[..k] == log[..k];
    }
  }

  /** The phase after k + 1 attempts, from the phase after k. */
  lemma PhaseAt(limit: nat, log: seq<Attempt>, k: nat)
    requires k < |log|
    ensures PhaseOf(limit, log[..k + 1]) == Advance(limit, PhaseOf(limit, log[..k]), log[k])
  {
    assert log[..k + 1] == log[..k] + [log[k]];
    PhaseSnoc(limit, log[..k], log[k]);
  }

  /** When each command may be sent: no reclaim unless a recoverable hand-back is acknowledged, no fan
      write outside control, no hand-back once one is acknowledged. */
  lemma CommandsGuarded(limit: nat, log: seq<Attempt>, k: nat)
    requires Lawful(limit, log) && 1 <= k < |log|
    ensures log[k].command.EnableManual? ==> PhaseOf(limit, log[..k]) == HandedBack(false)
    ensures log[k].command.SetFan? ==> PhaseOf(limit, log[..k]).Controlling?
    ensures log[k].command.RestoreAuto? ==> PhaseOf(limit, log[..k]).Controlling? || PhaseOf(limit, log[..k]).Pending?
  {
    PrefixLawful(limit, log, k + 1);
    PhaseAt(limit, log, k);
    LeavesStart(limit, log, k);
  }

  lemma LeavesStart(limit: nat, log: seq<Attempt>, k: nat)
    requires 1 <= k <= |log|
    ensures PhaseOf(limit, log[..k]) != Starting
  {
    PhaseAt(limit, log, k - 1);
  }

  /** Conservation: hand-backs minus reclaims is 1 while handed back and 0 otherwise. */
  lemma {:induction false} ModeCommandsConserved(limit: nat, log: seq<Attempt>)
    requires Lawful(limit, log)
    ensures Restores(log) - Reclaims(log) == if PhaseOf(limit, log).HandedBack? then 1 else 0
    decreases |log|
  {
    if |log| > 0 {
      ModeCommandsConserved(limit, log[..|log| - 1]);
      if |log| > 1 {
        LeavesStart(limit, log, |log| - 1);
      }
    }
  }

  /** Without an acknowledged manual enable, an acknowledged hand-back stays in force. */
  lemma {:induction false} StaysHandedBack(limit: nat, log: seq<Attempt>, i: nat, j: nat)
    requires Lawful(limit, log) && i <= j <= |log|
    requires PhaseOf(limit, log[..i]).HandedBack?
    requires forall m :: i <= m < j ==> !log[m].AcceptedEnable()
    ensures PhaseOf(limit, log[..j]).HandedBack?
    decreases j
  {
    if i < j {
      StaysHandedBack(limit, log, i, j - 1);
      PhaseAt(limit, log, j - 1);
      PrefixLawful(limit, log, j);
    }
  }

  /** Without an acknowledged hand-back, control is never regained: the loop stays out of HandedBack. */
  lemma {:induction false} StaysOut(limit: nat, log: seq<Attempt>, i: nat, j: nat)
    requires Lawful(limit, log) && i <= j <= |log|
    requires !PhaseOf(limit, log[..i]).HandedBack?
    requires forall m :: i <= m < j ==> !log[m].AcceptedRestore()
    ensures !PhaseOf(limit, log[..j]).HandedBack?
    decreases j
  {
    if i < j {
      StaysOut(limit, log, i, j - 1);
      PhaseAt(limit, log, j - 1);
    }
  }

  /** Strict alternation: two acknowledged hand-backs enclose an acknowledged reclaim, and two
      acknowledged enables enclose an acknowledged hand-back. */
  lemma ModeCommandsAlternate(limit: nat, log: seq<Attempt>, i: nat, j: nat)
    requires Lawful(limit, log) && i < j < |log|
    ensures log[i].AcceptedRestore() && log[j].AcceptedRestore() ==>
      exists m :: i < m < j && log[m].AcceptedEnable()
    ensures log[i].AcceptedEnable() && log[j].AcceptedEnable() ==>
      exists m :: i < m < j && log[m].AcceptedRestore()
  {
    PhaseAt(limit, log, i);
    PrefixLawful(limit, log, i + 1);
    CommandsGuarded(limit, log, j);
    if log[i].AcceptedRestore() && log[j].AcceptedRestore() && forall m :: i < m < j ==> !log[m].AcceptedEnable() {
      StaysHandedBack(limit, log, i + 1, j);
    }
    if log[i].AcceptedEnable() && log[j].AcceptedEnable() && forall m :: i < m < j ==> !log[m].AcceptedRestore() {
      StaysOut(limit, log, i + 1, j);
    }
  }

  ghost predicate Sticky(p: Phase) {
    (p.Pending? || p.HandedBack?) && p.sticky
  }

  /** Once a hand-back is sticky, every later command is a hand-back, and only the last can be acknowledged. */
  lemma {:induction false} StickyIsAbsorbing(limit: nat, log: seq<Attempt>, k: nat, j: nat)
    requires Lawful(limit, log) && k <= j < |log|
    requires Sticky(PhaseOf(limit, log[..k]))
    ensures log[j].command.RestoreAuto?
    ensures log[j].ok ==> j == |log| - 1
    ensures Sticky(PhaseOf(limit, log[..j + 1]))
    decreases j
  {
    hide PhaseOf;
    if k < j {
      StickyIsAbsorbing(limit, log, k, j - 1);
    }
    PhaseAt(limit, log, j);
    PrefixLawful(limit, log, j + 1);
    if j + 1 < |log| {
      PhaseAt(limit, log, j + 1);
      PrefixLawful(limit, log, j + 2);
    }
  }
}
