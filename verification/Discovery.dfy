/**
 The per-connection discovery protocol of the MQTT bridge (internal/mqtt/state.go, bridge.go):
 devices are announced lazily, once a connection, and again after every reconnect.
 */
module Discovery {
  import opened Basics

  /** What the broker sees, for one kind of device. An announcement is one pass over a device's
      configs, with the broker's answer to each. */
  datatype Wire = Connected | Announcement(index: int, acks: seq<bool>)

  predicate AllAcked(acks: seq<bool>) {
    forall k :: 0 <= k < |acks| ==> acks[k]
  }

  predicate CleanFor(w: Wire, index: int) {
    w.Announcement? && w.index == index && AllAcked(w.acks)
  }

  /** A device in a status snapshot, and how the broker would answer its configs now. */
  datatype Device = Device(index: int, acks: seq<bool>)

  /** One discovered-index map, and everything the broker has seen of that kind. */
  datatype Announcer = Announcer(discovered: map<int, bool>, wire: seq<Wire>) {
    predicate Marked(index: int) {
      index in discovered && discovered[index]
    }
  }

  const Idle := Announcer(map[], [])

  function AnnounceOne(a: Announcer, d: Device): Announcer {
    if a.Marked(d.index) then a
    else Announcer(if AllAcked(d.acks) then a.discovered[d.index := true] else a.discovered,
                   a.wire + [Announcement(d.index, d.acks)])
  }

  function AnnounceAll(a: Announcer, ds: seq<Device>): Announcer {
    if ds == [] then a else AnnounceOne(AnnounceAll(a, ds[..|ds| - 1]), ds[|ds| - 1])
  }

  function Reset(a: Announcer): Announcer {
    Announcer(map[], a.wire + [Connected])
  }

  /** A (re)connection, or a publish tick: whether the state publish went through, and the devices in
      the snapshot (none when there is no reading yet). */
  datatype Event = Connect | Publish(stateOk: bool, devices: Option<seq<Device>>)

  function Step(a: Announcer, e: Event): Announcer {
    match e
    case Connect => Reset(a)
    case Publish(ok, devices) => if ok && devices.Some? then AnnounceAll(a, devices.value) else a
  }

  function Run(a: Announcer, es: seq<Event>): Announcer {
    if es == [] then a else Step(Run(a, es[..|es| - 1]), es[|es| - 1])
  }

  // ----- Independent reading of the wire -----

  /** Entry k is a clean announcement of `index`, and nobody has reconnected since. */
  ghost predicate StandsAt(wire: seq<Wire>, k: int, index: int) {
    0 <= k < |wire| && CleanFor(wire[k], index) && forall j :: k < j < |wire| ==> wire[j] != Connected
  }

  ghost predicate AnnouncedHere(wire: seq<Wire>, index: int) {
    exists k :: StandsAt(wire, k, index)
  }

  /** Nothing is announced again on a connection that has a clean announcement of it. */
  ghost predicate NeverTwice(wire: seq<Wire>) {
    forall j, k :: 0 <= j < k < |wire| && wire[k].Announcement? && CleanFor(wire[j], wire[k].index) ==>
      exists m :: j < m < k && wire[m] == Connected
  }

  ghost predicate Faithful(a: Announcer) {
    && (forall index :: a.Marked(index) <==> AnnouncedHere(a.wire, index))
    && NeverTwice(a.wire)
  }

  lemma AnnouncedSnoc(wire: seq<Wire>, w: Wire, index: int)
    ensures AnnouncedHere(wire + [w], index) <==>
      CleanFor(w, index) || (AnnouncedHere(wire, index) && w != Connected)
  {
    var all := wire + [w];
    if CleanFor(w, index) {
      assert StandsAt(all, |wire|, index);
    }
    if AnnouncedHere(wire, index) && w != Connected {
      var k :| StandsAt(wire, k, index);
      assert StandsAt(all, k, index);
    }
    if AnnouncedHere(all, index) {
      var k :| StandsAt(all, k, index);
      if k < |wire| {
        assert all[|wire|] == w;
        assert forall j :: 0 <= j < |wire| ==> all[j] == wire[j];
        assert StandsAt(wire, k, index);
      }
    }
  }

  lemma NeverTwiceSnoc(wire: seq<Wire>, w: Wire)
    requires NeverTwice(wire)
    requires w.Announcement? ==> !AnnouncedHere(wire, w.index)
    ensures NeverTwice(wire + [w])
  {
    var all := wire + [w];
    forall j, k | 0 <= j < k < |all| && all[k].Announcement? && CleanFor(all[j], all[k].index)
      ensures exists m :: j < m < k && all[m] == Connected
    {
      if k < |wire| {
        var m :| j < m < k && wire[m] == Connected;
        assert all[m] == Connected;
      } else {
        assert !StandsAt(wire, j, w.index);
        var m :| j < m < |wire| && wire[m] == Connected;
        assert all[m] == Connected;
      }
    }
  }

  lemma AnnounceOneFaithful(a: Announcer, d: Device)
    requires Faithful(a)
    ensures Faithful(AnnounceOne(a, d))
  {
    if !a.Marked(d.index) {
      var w := Announcement(d.index, d.acks);
      forall index ensures AnnounceOne(a, d).Marked(index) <==> AnnouncedHere(a.wire + [w], index) {
        AnnouncedSnoc(a.wire, w, index);
      }
      NeverTwiceSnoc(a.wire, w);
    }
  }

  lemma {:induction false} AnnounceAllFaithful(a: Announcer, ds: seq<Device>)
    requires Faithful(a)
    ensures Faithful(AnnounceAll(a, ds))
    decreases |ds|
  {
    if ds != [] {
      AnnounceAllFaithful(a, ds[..|ds| - 1]);
      AnnounceOneFaithful(AnnounceAll(a, ds[..|ds| - 1]), ds[|ds| - 1]);
    }
  }

  /** After any run: an index is marked exactly when this connection has a clean announcement of it, and
      no connection ever sees an announcement of an index it already has cleanly. */
  lemma {:induction false} OncePerConnection(es: seq<Event>)
    ensures Faithful(Run(Idle, es))
    decreases |es|
  {
    if es != [] {
      var a, e := Run(Idle, es[..|es| - 1]), es[|es| - 1];
      OncePerConnection(es[..|es| - 1]);
      match e {
        case Connect =>
          forall index ensures !AnnouncedHere(a.wire + [Connected], index) {
            AnnouncedSnoc(a.wire, Connected, index);
          }
          NeverTwiceSnoc(a.wire, Connected);
        case Publish(ok, devices) =>
          if ok && devices.Some? {
            AnnounceAllFaithful(a, devices.value);
          }
      }
    }
  }

  // ----- Retry -----

  /** What a pass over the devices does to one index: it is announced if it is present and not marked,
      and from the first clean announcement on it is marked; marks are never lost. */
  lemma {:induction false} UnmarkedIsRetried(a: Announcer, ds: seq<Device>, index: int)
    ensures var a' := AnnounceAll(a, ds);
      && a.wire <= a'.wire
      && (a.Marked(index) ==>
            && a'.Marked(index)
            && forall k :: |a.wire| <= k < |a'.wire| ==> a'.wire[k].Announcement? && a'.wire[k].index != index)
      && (!a.Marked(index) && (exists d <- ds :: d.index == index) ==>
            exists k :: |a.wire| <= k < |a'.wire| && a'.wire[k].Announcement? && a'.wire[k].index == index)
      && (!a.Marked(index) ==>
            (a'.Marked(index) <==> exists k :: |a.wire| <= k < |a'.wire| && CleanFor(a'.wire[k], index)))
    decreases |ds|
  {
    if ds != [] {
      var before, d := AnnounceAll(a, ds[..|ds| - 1]), ds[|ds| - 1];
      UnmarkedIsRetried(a, ds[..|ds| - 1], index);
      var a' := AnnounceAll(a, ds);
      assert forall k :: 0 <= k < |before.wire| ==> a'.wire[k] == before.wire[k];
      if !before.Marked(d.index) {
        assert a'.wire[|before.wire|] == Announcement(d.index, d.acks);
      }
      if exists x <- ds :: x.index == index {
        if d.index != index {
          assert exists x <- ds[..|ds| - 1] :: x.index == index;
        }
      }
    }
  }

  /** Entry k is an announcement of `index`, made after the first `from` entries. */
  predicate NewFor(wire: seq<Wire>, from: nat, k: int, index: int) {
    from <= k < |wire| && wire[k].Announcement? && wire[k].index == index
  }

  /** A pass over these devices: only devices of the list that were not marked are announced, with the
      broker's answers to them; each such device is; and it is marked if and only if all the answers to
      one of its announcements were good. */
  ghost predicate PassedOver(a: Announcer, a': Announcer, ds: seq<Device>) {
    && a.wire <= a'.wire
    && (forall k :: |a.wire| <= k < |a'.wire| ==> FromList(a, a'.wire[k], ds))
    && (forall n :: 0 <= n < |ds| && !a.Marked(ds[n].index) ==> NewlyAnnounced(a'.wire, |a.wire|, ds[n].index))
    && (forall index :: a'.Marked(index) <==> a.Marked(index) || exists k :: NewlyClean(a'.wire, |a.wire|, k, index))
  }

  ghost predicate FromList(a: Announcer, w: Wire, ds: seq<Device>) {
    exists n :: 0 <= n < |ds| && AnnouncementOf(a, w, ds[n])
  }

  ghost predicate NewlyAnnounced(wire: seq<Wire>, from: nat, index: int) {
    exists k :: NewFor(wire, from, k, index)
  }

  predicate AnnouncementOf(a: Announcer, w: Wire, d: Device) {
    w == Announcement(d.index, d.acks) && !a.Marked(d.index)
  }

  predicate NewlyClean(wire: seq<Wire>, from: nat, k: int, index: int) {
    NewFor(wire, from, k, index) && forall j :: 0 <= j < |wire[k].acks| ==> wire[k].acks[j]
  }

  lemma {:induction false} AnnounceAllPasses(a: Announcer, ds: seq<Device>)
    ensures PassedOver(a, AnnounceAll(a, ds), ds)
    decreases |ds|
  {
    if ds == [] {
      assert forall index, k :: !NewlyClean(a.wire, |a.wire|, k, index);
    } else {
      var init, d := ds[..|ds| - 1], ds[|ds| - 1];
      AnnounceAllPasses(a, init);
      hide AnnounceAll, PassedOver;
      OneMoreDevice(a, AnnounceAll(a, init), init, d);
      assert ds == init + [d];
    }
  }

  lemma OneMoreDevice(a: Announcer, before: Announcer, init: seq<Device>, d: Device)
    requires PassedOver(a, before, init)
    ensures PassedOver(a, AnnounceOne(before, d), init + [d])
  {
    hide AllAcked;
    var a', ds := AnnounceOne(before, d), init + [d];
    var w := Announcement(d.index, d.acks);
    assert before.wire <= a'.wire;
    forall k | |a.wire| <= k < |a'.wire| ensures FromList(a, a'.wire[k], ds) {
      if k < |before.wire| {
        assert FromList(a, before.wire[k], init);
        var n :| 0 <= n < |init| && AnnouncementOf(a, before.wire[k], init[n]);
        assert AnnouncementOf(a, a'.wire[k], ds[n]);
      } else {
        assert before.Marked(d.index) <==> a.Marked(d.index) || exists j :: NewlyClean(before.wire, |a.wire|, j, d.index);
        assert AnnouncementOf(a, a'.wire[k], ds[|init|]);
      }
    }
    forall n | 0 <= n < |ds| && !a.Marked(ds[n].index) ensures NewlyAnnounced(a'.wire, |a.wire|, ds[n].index) {
      if n < |init| {
        assert NewlyAnnounced(before.wire, |a.wire|, init[n].index);
        var k :| NewFor(before.wire, |a.wire|, k, init[n].index);
        assert NewFor(a'.wire, |a.wire|, k, ds[n].index);
      } else if before.Marked(d.index) {
        var k :| NewlyClean(before.wire, |a.wire|, k, d.index);
        assert NewFor(a'.wire, |a.wire|, k, d.index);
      } else {
        assert NewFor(a'.wire, |a.wire|, |before.wire|, d.index);
      }
    }
    forall index ensures a'.Marked(index) <==> a.Marked(index) || exists k :: NewlyClean(a'.wire, |a.wire|, k, index) {
      OneMoreMark(a, before, d, index);
    }
  }

  lemma OneMoreMark(a: Announcer, before: Announcer, d: Device, index: int)
    requires a.wire <= before.wire
    requires before.Marked(index) <==> a.Marked(index) || exists k :: NewlyClean(before.wire, |a.wire|, k, index)
    ensures var a' := AnnounceOne(before, d);
      a'.Marked(index) <==> a.Marked(index) || exists k :: NewlyClean(a'.wire, |a.wire|, k, index)
  {
    var a' := AnnounceOne(before, d);
    if k :| NewlyClean(before.wire, |a.wire|, k, index) {
      assert NewlyClean(a'.wire, |a.wire|, k, index);
    }
    if k :| NewlyClean(a'.wire, |a.wire|, k, index) {
      if k < |before.wire| {
        assert NewlyClean(before.wire, |a.wire|, k, index);
      }
    }
    if !before.Marked(d.index) && d.index == index && AllAcked(d.acks) {
      assert NewlyClean(a'.wire, |a.wire|, |before.wire|, index);
    }
  }

  /** What a publish does: behind a failed state publish, or without a reading, nothing; otherwise one pass
      over the devices. */
  lemma PublishAnnounces(a: Announcer, stateOk: bool, devices: Option<seq<Device>>)
    ensures var a' := Step(a, Publish(stateOk, devices));
      if stateOk && devices.Some? then PassedOver(a, a', devices.value) else a' == a
  {
    if devices.Some? {
      AnnounceAllPasses(a, devices.value);
    }
  }

  /** The same for devices whose index is their position, as CPU sockets have: position k is announced with
      the k-th answers if it is not marked, and marked if and only if they are all good. */
  ghost predicate PassedByPosition(a: Announcer, a': Announcer, answers: seq<seq<bool>>) {
    && a.wire <= a'.wire
    && (forall n :: |a.wire| <= n < |a'.wire| ==>
          && a'.wire[n].Announcement? && 0 <= a'.wire[n].index < |answers|
          && !a.Marked(a'.wire[n].index) && a'.wire[n].acks == answers[a'.wire[n].index])
    && (forall k :: 0 <= k < |answers| && !a.Marked(k) ==> NewlyAnnounced(a'.wire, |a.wire|, k))
    && (forall k :: a'.Marked(k) <==>
          a.Marked(k) || (0 <= k < |answers| && forall j :: 0 <= j < |answers[k]| ==> answers[k][j]))
  }

  lemma PositionsPass(a: Announcer, a': Announcer, ds: seq<Device>, answers: seq<seq<bool>>)
    requires PassedOver(a, a', ds)
    requires |ds| == |answers| && forall k :: 0 <= k < |ds| ==> ds[k] == Device(k, answers[k])
    ensures PassedByPosition(a, a', answers)
  {
    forall n | |a.wire| <= n < |a'.wire|
      ensures a'.wire[n].Announcement? && 0 <= a'.wire[n].index < |answers|
              && !a.Marked(a'.wire[n].index) && a'.wire[n].acks == answers[a'.wire[n].index]
    {
      assert FromList(a, a'.wire[n], ds);
      var k :| 0 <= k < |ds| && AnnouncementOf(a, a'.wire[n], ds[k]);
    }
    forall k | 0 <= k < |answers| && !a.Marked(k) ensures NewlyAnnounced(a'.wire, |a.wire|, k) {
      assert ds[k].index == k;
    }
    forall k ensures a'.Marked(k) <==>
      a.Marked(k) || (0 <= k < |answers| && forall j :: 0 <= j < |answers[k]| ==> answers[k][j])
    {
      if n :| NewlyClean(a'.wire, |a.wire|, n, k) {
        assert a'.wire[n].acks == answers[k];
      }
      if 0 <= k < |answers| && !a.Marked(k) && forall j :: 0 <= j < |answers[k]| ==> answers[k][j] {
        assert ds[k].index == k && NewlyAnnounced(a'.wire, |a.wire|, k);
        var n :| NewFor(a'.wire, |a.wire|, n, k);
        assert NewlyClean(a'.wire, |a.wire|, n, k);
      }
    }
  }

  /** A marked index is announced again only after a reconnect. */
  lemma {:induction false} MarkedIsSilent(a: Announcer, es: seq<Event>, index: int)
    requires a.Marked(index) && Connect !in es
    ensures var a' := Run(a, es);
      && a'.Marked(index) && a.wire <= a'.wire
      && forall k :: |a.wire| <= k < |a'.wire| ==> a'.wire[k].Announcement? && a'.wire[k].index != index
    decreases |es|
  {
    if es != [] {
      MarkedIsSilent(a, es[..|es| - 1], index);
      var before, e := Run(a, es[..|es| - 1]), es[|es| - 1];
      assert e in es;
      if e.Publish? && e.stateOk && e.devices.Some? {
        UnmarkedIsRetried(before, e.devices.value, index);
      }
    }
  }

  // ----- The bridge object -----

  class Bridge {
    var gpuDiscovered: map<int, bool>
    var cpuDiscovered: map<int, bool>
    /** What the broker has seen of each kind. */
    var gpuWire: seq<Wire>
    var cpuWire: seq<Wire>

    ghost function Gpus(): Announcer
      reads this
    {
      Announcer(gpuDiscovered, gpuWire)
    }

    ghost function Cpus(): Announcer
      reads this
    {
      Announcer(cpuDiscovered, cpuWire)
    }

    constructor ()
      ensures Gpus() == Idle && Cpus() == Idle
    {
      gpuDiscovered, cpuDiscovered, gpuWire, cpuWire := map[], map[], [], [];
    }

    method ResetGPUDiscovery()
      modifies this`gpuDiscovered
      ensures gpuDiscovered == map[]
    {
      gpuDiscovered := map[];
    }

    method ResetCPUDiscovery()
      modifies this`cpuDiscovered
      ensures cpuDiscovered == map[]
    {
      cpuDiscovered := map[];
    }

    method OnConnect()
      modifies this
      ensures Gpus() == Step(old(Gpus()), Connect) && Cpus() == Step(old(Cpus()), Connect)
    {
      gpuWire, cpuWire := gpuWire + [Connected], cpuWire + [Connected];
      ResetGPUDiscovery();
      ResetCPUDiscovery();
    }

    /** Publishes every config of one device, going on past failures. */
    static method PublishSpecs(answers: seq<bool>) returns (published: bool)
      ensures published <==> forall k :: 0 <= k < |answers| ==> answers[k]
    {
      published := true;
      for n := 0 to |answers|
        invariant published == AllAcked(answers[..n])
      {
        assert answers[..n + 1] == answers[..n] + [answers[n]];
        if !answers[n] {
          published := false;
        }
      }
      assert answers[..|answers|] == answers;
    }

    method PublishNewGPUDiscovery(devices: Option<seq<Device>>)
      modifies this`gpuDiscovered, this`gpuWire
      ensures Gpus() == Step(old(Gpus()), Publish(true, devices))
      ensures if devices.Some? then PassedOver(old(Gpus()), Gpus(), devices.value) else Gpus() == old(Gpus())
    {
      hide PassedOver;
      PublishAnnounces(Gpus(), true, devices);
      if devices.None? {
        return;
      }
      var ds := devices.value;
      for n := 0 to |ds|
        invariant Gpus() == AnnounceAll(old(Gpus()), ds[..n])
      {
        var d := ds[n];
        assert ds[..n + 1][..n] == ds[..n];
        var already := d.index in gpuDiscovered && gpuDiscovered[d.index];
        if already {
          continue;
        }
        var published := PublishSpecs(d.acks);
        gpuWire := gpuWire + [Announcement(d.index, d.acks)];
        if published {
          gpuDiscovered := gpuDiscovered[d.index := true];
        }
      }
      assert ds[..|ds|] == ds;
    }

    /** A CPU socket's index is its position. */
    static function Sockets(answers: seq<seq<bool>>): seq<Device> {
      seq(|answers|, n requires 0 <= n < |answers| => Device(n, answers[n]))
    }

    static function SocketsOf(answers: Option<seq<seq<bool>>>): Option<seq<Device>> {
      if answers.None? then None else Some(Sockets(answers.value))
    }

    method PublishNewCPUDiscovery(answers: Option<seq<seq<bool>>>)
      modifies this`cpuDiscovered, this`cpuWire
      ensures Cpus() == Step(old(Cpus()), Publish(true, SocketsOf(answers)))
      ensures if answers.Some? then PassedByPosition(old(Cpus()), Cpus(), answers.value) else Cpus() == old(Cpus())
    {
      hide PassedOver, PassedByPosition;
      PublishAnnounces(Cpus(), true, SocketsOf(answers));
      if answers.None? {
        return;
      }
      ghost var ds := Sockets(answers.value);
      for n := 0 to |answers.value|
        invariant Cpus() == AnnounceAll(old(Cpus()), ds[..n])
      {
        assert ds[..n + 1][..n] == ds[..n];
        var already := n in cpuDiscovered && cpuDiscovered[n];
        if already {
          continue;
        }
        var published := PublishSpecs(answers.value[n]);
        cpuWire := cpuWire + [Announcement(n, answers.value[n])];
        if published {
          cpuDiscovered := cpuDiscovered[n := true];
        }
      }
      assert ds[..|answers.value|] == ds;
      PositionsPass(old(Cpus()), Cpus(), ds, answers.value);
    }

    /** Discovery is attempted only behind a successful state publish. */
    method PublishState(stateOk: bool, gpus: Option<seq<Device>>, cpus: Option<seq<seq<bool>>>)
      modifies this
      ensures Gpus() == Step(old(Gpus()), Publish(stateOk, gpus))
      ensures Cpus() == Step(old(Cpus()), Publish(stateOk, SocketsOf(cpus)))
      ensures if stateOk && gpus.Some? then PassedOver(old(Gpus()), Gpus(), gpus.value) else Gpus() == old(Gpus())
      ensures if stateOk && cpus.Some? then PassedByPosition(old(Cpus()), Cpus(), cpus.value) else Cpus() == old(Cpus())
    {
      if !stateOk {
        return;
      }
      PublishNewGPUDiscovery(gpus);
      PublishNewCPUDiscovery(cpus);
    }
  }
}
