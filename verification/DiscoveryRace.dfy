/**
 The discovery protocol without the atomicity of module Discovery: the publish loop and the connection
 callback run on two goroutines, and a connection can change between any two configs.
 */
module DiscoveryRace {
  import Discovery

  /** What the broker sees: new connections and single configs, with its answer to each. */
  datatype Wire = Connected | Config(index: int, part: nat, ok: bool)

  /** The publish loop: between devices, or about to send config `next` of one. `first` is where on the
      wire its first config went, once it has gone. */
  datatype Publisher = AtRest | Sending(index: int, next: nat, clean: bool, first: nat)

  /** Where on the wire an announcement began, and where it was when the index was marked, with how many
      resets outstanding. */
  datatype Span = Span(from: nat, to: nat, resetsDue: nat)

  /** `resetsDue` counts connections whose callback has not yet cleared the map; `origin` is an observer. */
  datatype State = State(
    discovered: map<int, bool>,
    wire: seq<Wire>,
    publisher: Publisher,
    resetsDue: nat,
    origin: map<int, Span>)
  {
    predicate Marked(index: int) {
      index in discovered && discovered[index]
    }
  }

  const Start := State(map[], [], AtRest, 0, map[])

  datatype Step = Check(index: int) | Send(ok: bool) | Finish | Connect | Reset

  /** `parts` is the number of configs of a device. */
  predicate Enabled(parts: nat, s: State, step: Step) {
    match step
    case Check(_) => s.publisher.AtRest?
    case Send(_) => s.publisher.Sending? && s.publisher.next < parts
    case Finish => s.publisher.Sending? && s.publisher.next == parts
    case Connect => true
    case Reset => s.resetsDue > 0
  }

  function SendNext(s: State, ok: bool): State
    requires s.publisher.Sending?
  {
    var p := s.publisher;
    s.(wire := s.wire + [Config(p.index, p.next, ok)],
       publisher := Sending(p.index, p.next + 1, p.clean && ok, if p.next == 0 then |s.wire| else p.first))
  }

  function MarkIfClean(s: State): State
    requires s.publisher.Sending?
  {
    var p := s.publisher;
    if !p.clean then s.(publisher := AtRest)
    else s.(publisher := AtRest, discovered := s.discovered[p.index := true],
            origin := s.origin[p.index := Span(p.first, |s.wire|, s.resetsDue)])
  }

  function Next(parts: nat, s: State, step: Step): State
    requires Enabled(parts, s, step)
  {
    match step
    case Check(index) => if s.Marked(index) then s else s.(publisher := Sending(index, 0, true, 0))
    case Send(ok) => SendNext(s, ok)
    case Finish => MarkIfClean(s)
    case Connect => s.(wire := s.wire + [Connected], resetsDue := s.resetsDue + 1)
    case Reset => s.(discovered := map[], resetsDue := s.resetsDue - 1)
  }

  /** Where these steps lead; impossible ones are skipped. */
  function After(parts: nat, s: State, steps: seq<Step>): State {
    if steps == [] then s
    else
      var before, last := After(parts, s, steps[..|steps| - 1]), steps[|steps| - 1];
      if Enabled(parts, before, last) then Next(parts, before, last) else before
  }

  ghost predicate Possible(parts: nat, s: State, steps: seq<Step>) {
    steps == []
    || (Possible(parts, s, steps[..|steps| - 1])
        && Enabled(parts, After(parts, s, steps[..|steps| - 1]), steps[|steps| - 1]))
  }

  // ----- Independent reading of the wire -----

  /** Entry k is this config, acknowledged, and nobody has reconnected since. */
  ghost predicate StandsAt(wire: seq<Wire>, k: int, index: int, part: nat) {
    0 <= k < |wire| && wire[k] == Config(index, part, true) && !ConnectedAfter(wire, k)
  }

  ghost predicate ConnectedAfter(wire: seq<Wire>, k: int) {
    exists j :: 0 <= k < j < |wire| && wire[j] == Connected
  }

  ghost predicate AckedHere(wire: seq<Wire>, index: int, part: nat) {
    exists k :: StandsAt(wire, k, index, part)
  }

  /** This connection has acknowledged every config of the device. */
  ghost predicate AnnouncedHere(parts: nat, wire: seq<Wire>, index: int) {
    forall part: nat :: part < parts ==> AckedHere(wire, index, part)
  }

  ghost predicate AckedSince(wire: seq<Wire>, index: int, part: nat, from: nat) {
    exists k :: from <= k < |wire| && wire[k] == Config(index, part, true)
  }

  // ----- The invariant -----

  /** From position `from` on, part 0 of `index` is sent there and nowhere else, and all parts up to
      `sent` are acknowledged. */
  ghost predicate Backed(wire: seq<Wire>, index: int, from: nat, sent: nat) {
    && from < |wire| && wire[from] == Config(index, 0, true)
    && (forall k :: from < k < |wire| && wire[k].Config? && wire[k].index == index ==> wire[k].part > 0)
    && (forall part: nat :: part < sent ==> AckedSince(wire, index, part, from))
  }

  ghost predicate PublisherFits(parts: nat, s: State) {
    s.publisher.Sending? ==>
      var p := s.publisher;
      && !s.Marked(p.index) && p.next <= parts
      && (p.clean && p.next > 0 ==> Backed(s.wire, p.index, p.first, p.next))
  }

  ghost predicate MarkFits(parts: nat, s: State, index: int) {
    && index in s.origin
    && s.origin[index].from < s.origin[index].to <= |s.wire|
    && Backed(s.wire, index, s.origin[index].from, parts)
    && (s.resetsDue == 0 ==> QuietSince(s.wire, s.origin[index].to))
  }

  ghost predicate QuietSince(wire: seq<Wire>, from: nat) {
    forall k :: from <= k < |wire| ==> wire[k] != Connected
  }

  /** On the connection it was last marked on, an index stays marked until an outstanding reset runs. */
  ghost predicate OriginFits(s: State, index: int) {
    index in s.origin && QuietSince(s.wire, s.origin[index].to) ==>
      && s.resetsDue <= s.origin[index].resetsDue
      && (s.Marked(index) <==> s.resetsDue == s.origin[index].resetsDue)
  }

  ghost predicate Inv(parts: nat, s: State) {
    && PublisherFits(parts, s)
    && (forall index :: index in s.origin ==> s.origin[index].to <= |s.wire|)
    && forall index :: s.Marked(index) ==> MarkFits(parts, s, index)
  }

  lemma OriginStep(parts: nat, s: State, step: Step, index: int)
    requires Inv(parts, s) && OriginFits(s, index) && Enabled(parts, s, step)
    ensures OriginFits(Next(parts, s, step), index)
  {
    var s' := Next(parts, s, step);
    if index in s.origin && index in s'.origin && s.origin[index] == s'.origin[index] {
      var to := s.origin[index].to;
      assert forall k :: to <= k < |s.wire| ==> s'.wire[k] == s.wire[k];
      if step.Connect? {
        assert s'.wire[|s.wire|] == Connected;
      }
    }
  }

  lemma BackedSnoc(wire: seq<Wire>, index: int, from: nat, sent: nat, w: Wire)
    requires Backed(wire, index, from, sent)
    requires w.Config? && w.index == index ==> w.part > 0
    ensures Backed(wire + [w], index, from, sent)
    ensures w == Config(index, sent, true) ==> Backed(wire + [w], index, from, sent + 1)
  {
    var all := wire + [w];
    assert all[|wire|] == w;
    forall part: nat | part < sent ensures AckedSince(all, index, part, from) {
      assert AckedSince(wire, index, part, from);
      var k :| from <= k < |wire| && wire[k] == Config(index, part, true);
      assert all[k] == wire[k];
    }
  }

  lemma BackedAtFirst(wire: seq<Wire>, index: int)
    ensures Backed(wire + [Config(index, 0, true)], index, |wire|, 1)
  {
    var all := wire + [Config(index, 0, true)];
    assert all[|wire|] == Config(index, 0, true);
  }

  lemma InvSend(parts: nat, s: State, ok: bool)
    requires Inv(parts, s) && s.publisher.Sending? && s.publisher.next < parts
    ensures Inv(parts, SendNext(s, ok))
  {
    var s', p := SendNext(s, ok), s.publisher;
    var w := Config(p.index, p.next, ok);
    hide Backed;
    if p.clean && ok {
      if p.next == 0 {
        BackedAtFirst(s.wire, p.index);
      } else {
        BackedSnoc(s.wire, p.index, p.first, p.next, w);
      }
    }
    forall index | s'.Marked(index) ensures MarkFits(parts, s', index) {
      assert s.Marked(index) && index != p.index;
      BackedSnoc(s.wire, index, s.origin[index].from, parts, w);
    }
  }

  lemma InvConnect(parts: nat, s: State)
    requires Inv(parts, s)
    ensures Inv(parts, Next(parts, s, Connect))
  {
    var s', p := Next(parts, s, Connect), s.publisher;
    hide Backed;
    if p.Sending? && p.clean && p.next > 0 {
      BackedSnoc(s.wire, p.index, p.first, p.next, Connected);
    }
    forall index | s'.Marked(index) ensures MarkFits(parts, s', index) {
      assert s.Marked(index);
      BackedSnoc(s.wire, index, s.origin[index].from, parts, Connected);
    }
  }

  lemma InvCheck(parts: nat, s: State, index: int)
    requires Inv(parts, s) && s.publisher.AtRest?
    ensures Inv(parts, Next(parts, s, Check(index)))
  {
    var s' := Next(parts, s, Check(index));
    hide Backed;
    forall other | s'.Marked(other) ensures MarkFits(parts, s', other) {
      assert s.Marked(other) && MarkFits(parts, s, other);
    }
  }

  lemma InvFinish(parts: nat, s: State)
    requires Inv(parts, s) && s.publisher.Sending? && 0 < s.publisher.next == parts
    ensures Inv(parts, MarkIfClean(s))
  {
    var s', p := MarkIfClean(s), s.publisher;
    assert p.clean ==> p.first < |s.wire|;
    hide Backed;
    forall index | s'.Marked(index) ensures MarkFits(parts, s', index) {
      assert index != p.index || !p.clean ==> s.Marked(index);
    }
  }

  lemma {:induction false} InvRun(parts: nat, steps: seq<Step>)
    requires parts > 0
    ensures Inv(parts, After(parts, Start, steps))
    decreases |steps|
  {
    if steps != [] {
      InvRun(parts, steps[..|steps| - 1]);
      var s, step := After(parts, Start, steps[..|steps| - 1]), steps[|steps| - 1];
      hide Backed;
      if Enabled(parts, s, step) {
        match step {
          case Check(index) => InvCheck(parts, s, index);
          case Send(ok) => InvSend(parts, s, ok);
          case Finish => InvFinish(parts, s);
          case Connect => InvConnect(parts, s);
          case Reset =>
        }
      }
    }
  }

  lemma {:induction false} OriginRun(parts: nat, steps: seq<Step>, index: int)
    requires parts > 0
    ensures OriginFits(After(parts, Start, steps), index)
    decreases |steps|
  {
    if steps != [] {
      var init, step := steps[..|steps| - 1], steps[|steps| - 1];
      OriginRun(parts, init, index);
      InvRun(parts, init);
      hide OriginFits, Inv, Next;
      if Enabled(parts, After(parts, Start, init), step) {
        OriginStep(parts, After(parts, Start, init), step, index);
      }
    }
  }

  // ----- Exactly when a mark is stale -----

  lemma StaleIsConnectedAfter(parts: nat, wire: seq<Wire>, index: int, from: nat)
    requires parts > 0 && Backed(wire, index, from, parts)
    ensures !AnnouncedHere(parts, wire, index) <==> ConnectedAfter(wire, from)
  {
    if ConnectedAfter(wire, from) {
      var j :| from < j < |wire| && wire[j] == Connected;
      forall k ensures !StandsAt(wire, k, index, 0) {
        if 0 <= k < |wire| && wire[k] == Config(index, 0, true) {
          assert k < j && wire[j] == Connected;
        }
      }
      assert !AckedHere(wire, index, 0);
    } else {
      forall part: nat | part < parts ensures AckedHere(wire, index, part) {
        assert AckedSince(wire, index, part, from);
        var k :| from <= k < |wire| && wire[k] == Config(index, part, true);
        assert StandsAt(wire, k, index, part);
      }
    }
  }

  /** Over every run: a marked index lacks an acknowledged config on the present connection if and only if
      a connection came up after the first config of the announcement that marked it. With no reset
      outstanding, that was before the mark: in the middle of the announcement. */
  lemma StaleMarkExactlyWhen(parts: nat, steps: seq<Step>, index: int)
    requires parts > 0
    ensures var s := After(parts, Start, steps);
      s.Marked(index) ==>
        && index in s.origin
        && var span := s.origin[index];
        && span.from < span.to <= |s.wire| && s.wire[span.from] == Config(index, 0, true)
        && (!AnnouncedHere(parts, s.wire, index) <==> ConnectedAfter(s.wire, span.from))
        && (s.resetsDue == 0 ==>
              (!AnnouncedHere(parts, s.wire, index) <==>
                 exists k :: span.from < k < span.to && s.wire[k] == Connected))
  {
    InvRun(parts, steps);
    var s := After(parts, Start, steps);
    if s.Marked(index) {
      assert MarkFits(parts, s, index);
      StaleIsConnectedAfter(parts, s.wire, index, s.origin[index].from);
    }
  }

  lemma Snoc(parts: nat, s: State, steps: seq<Step>, step: Step) returns (more: seq<Step>)
    requires Possible(parts, s, steps) && Enabled(parts, After(parts, s, steps), step)
    ensures more == steps + [step] && Possible(parts, s, more)
    ensures After(parts, s, more) == Next(parts, After(parts, s, steps), step)
  {
    more := steps + [step];
    assert more[..|steps|] == steps;
  }

  /** A GPU has three configs; the connection changes after the first, its callback resets the map, and
      then the announcement goes on and marks the index. No later tick announces it on this connection. */
  lemma ReconnectLeavesAStaleMark(index: int) returns (steps: seq<Step>)
    ensures Possible(3, Start, steps)
    ensures var s := After(3, Start, steps);
      && s.Marked(index) && s.resetsDue == 0 && s.publisher.AtRest? && !AnnouncedHere(3, s.wire, index)
      && Next(3, s, Check(index)) == s
  {
    assert Possible(3, Start, []) && After(3, Start, []) == Start;
    {
      hide Possible, After;
      steps := Snoc(3, Start, [], Check(index));
      steps := Snoc(3, Start, steps, Send(true));
      steps := Snoc(3, Start, steps, Connect);
      steps := Snoc(3, Start, steps, Reset);
      steps := Snoc(3, Start, steps, Send(true));
      steps := Snoc(3, Start, steps, Send(true));
      steps := Snoc(3, Start, steps, Finish);
      var s := After(3, Start, steps);
      assert s.wire == [Config(index, 0, true), Connected, Config(index, 1, true), Config(index, 2, true)];
      assert s.wire[1] == Connected;
      assert !AckedHere(s.wire, index, 0);
    }
  }

  /** Over every run: on the connection an index was last marked on, the loop announces it once more if and
      only if a reset that was outstanding at the mark has run since. */
  lemma AnnouncedAgainExactlyWhen(parts: nat, steps: seq<Step>, index: int)
    requires parts > 0
    ensures var s := After(parts, Start, steps);
      s.publisher.AtRest? && index in s.origin && QuietSince(s.wire, s.origin[index].to) ==>
        (Next(parts, s, Check(index)).publisher.Sending? <==> s.resetsDue < s.origin[index].resetsDue)
  {
    OriginRun(parts, steps, index);
  }

  /** A callback that runs late makes the loop announce an index again on the connection that has it. */
  lemma LateResetAnnouncesTwice(index: int) returns (steps: seq<Step>)
    ensures Possible(1, Start, steps)
    ensures After(1, Start, steps).wire == [Connected, Config(index, 0, true), Config(index, 0, true)]
  {
    assert Possible(1, Start, []) && After(1, Start, []) == Start;
    {
      hide Possible, After;
      steps := Snoc(1, Start, [], Connect);
      steps := Snoc(1, Start, steps, Check(index));
      steps := Snoc(1, Start, steps, Send(true));
      steps := Snoc(1, Start, steps, Finish);
      steps := Snoc(1, Start, steps, Reset);
      steps := Snoc(1, Start, steps, Check(index));
      steps := Snoc(1, Start, steps, Send(true));
    }
  }

  // ----- Undisturbed, this is the atomic protocol -----

  function Sends(acks: seq<bool>): seq<Step> {
    seq(|acks|, k requires 0 <= k < |acks| => Send(acks[k]))
  }

  function Configs(index: int, acks: seq<bool>): seq<Wire> {
    seq(|acks|, k requires 0 <= k < |acks| => Config(index, k, acks[k]))
  }

  lemma {:induction false} UndisturbedSends(parts: nat, s: State, acks: seq<bool>)
    requires s.publisher.Sending? && s.publisher.next == 0 && s.publisher.clean && |acks| <= parts
    ensures var s' := After(parts, s, Sends(acks));
      && s'.publisher.Sending? && s'.publisher.index == s.publisher.index && s'.publisher.next == |acks|
      && s'.publisher.clean == Discovery.AllAcked(acks)
      && s'.discovered == s.discovered && s'.wire == s.wire + Configs(s.publisher.index, acks)
      && s'.resetsDue == s.resetsDue
    decreases |acks|
  {
    if acks != [] {
      var init := acks[..|acks| - 1];
      UndisturbedSends(parts, s, init);
      assert Sends(acks)[..|acks| - 1] == Sends(init);
    }
  }

  /** What the loop does about a device when nothing interrupts it. */
  function Announce(s: State, d: Discovery.Device): seq<Step> {
    [Check(d.index)] + if s.Marked(d.index) then [] else Sends(d.acks) + [Finish]
  }

  lemma {:induction false} AfterConcat(parts: nat, s: State, a: seq<Step>, b: seq<Step>)
    ensures After(parts, s, a + b) == After(parts, After(parts, s, a), b)
    decreases |b|
  {
    if b == [] {
      assert a + b == a;
    } else {
      AfterConcat(parts, s, a, b[..|b| - 1]);
      assert (a + b)[..|a + b| - 1] == a + b[..|b| - 1];
    }
  }

  lemma AfterOne(parts: nat, s: State, step: Step)
    requires Enabled(parts, s, step)
    ensures After(parts, s, [step]) == Next(parts, s, step)
  {
    assert [step][..0] == [] && After(parts, s, []) == s;
  }

  /** An announcement that nothing interrupts does to the map, and puts on the wire, what the atomic
      protocol says. */
  lemma UndisturbedIsAtomic(s: State, d: Discovery.Device, wire: seq<Discovery.Wire>)
    requires s.publisher.AtRest?
    ensures var s', a := After(|d.acks|, s, Announce(s, d)),
                         Discovery.AnnounceOne(Discovery.Announcer(s.discovered, wire), d);
      && s'.publisher.AtRest? && s'.resetsDue == s.resetsDue
      && s'.discovered == a.discovered
      && s'.wire == s.wire + if a.wire == wire then [] else Configs(d.index, d.acks)
  {
    var parts := |d.acks|;
    AfterOne(parts, s, Check(d.index));
    if !s.Marked(d.index) {
      var s1 := After(parts, s, [Check(d.index)]);
      AfterConcat(parts, s, [Check(d.index)], Sends(d.acks) + [Finish]);
      UndisturbedSends(parts, s1, d.acks);
      AfterConcat(parts, s1, Sends(d.acks), [Finish]);
      AfterOne(parts, After(parts, s1, Sends(d.acks)), Finish);
      hide After;
    } else {
      hide After;
      assert [Check(d.index)] + [] == [Check(d.index)];
    }
  }
}
