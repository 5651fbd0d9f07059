/** Whole runs of syncs and watchdog ticks, seen by the WireGuard devices of the kernel engine
    (engine/kernel.go, wg/engine.go). */
module DeviceRuns {
  import opened Host
  import opened Types
  import opened KernelEngine
  import opened SyncEffects
  import opened RuleRuns
  import opened WgDevice

  type Devices = map<string, Device>

  /** One event, seen by the devices: only the engine's turn touches them. */
  ghost predicate DevStep(net: Net, m: Memory, e: Event, ds: Devices, ds': Devices) {
    match e
    case Sync(ifaces, _, _, d) =>
      && DevicesStepped(net, Driven(d, ifaces), ds, ds')
      && DevicesLeft(m.managed, Driven(d, ifaces), ds, ds')
    case Tick(_) => ds' == ds
  }

  ghost predicate DevRun(net: Net, run: seq<Event>, ds: seq<Devices>) {
    |ds| == |run| + 1 && forall i | 0 <= i < |run| :: DevStep(net, MemoryAfter(run[..i]), run[i], ds[i], ds[i + 1])
  }

  /** The kernel engine is applied to an interface of this name. */
  predicate Drives(e: Event, n: string) { e.Sync? && n in ByName(Driven(e.driver, e.ifaces)) }

  ghost predicate EverDriven(run: seq<Event>, n: string) {
    exists i :: 0 <= i < |run| && Drives(run[i], n)
  }

  lemma DrivenPush(run: seq<Event>, e: Event, n: string)
    ensures EverDriven(run + [e], n) <==> EverDriven(run, n) || Drives(e, n)
  {
    hide Drives;
    assert forall i | 0 <= i < |run| :: (run + [e])[i] == run[i];
    assert (run + [e])[|run|] == e;
  }

  lemma DevRunPrefix(net: Net, run: seq<Event>, ds: seq<Devices>)
    requires run != [] && DevRun(net, run, ds)
    ensures DevRun(net, run[..|run| - 1], ds[..|run|])
    ensures DevStep(net, MemoryAfter(run[..|run| - 1]), run[|run| - 1], ds[|run| - 1], ds[|run|])
  {
    hide DevStep, MemoryAfter;
    var k := |run| - 1;
    forall i | 0 <= i < k ensures DevStep(net, MemoryAfter(run[..k][..i]), run[..k][i], ds[..k + 1][i],
                                          ds[..k + 1][i + 1]) {
      assert run[..k][..i] == run[..i];
    }
  }

  /** The interfaces the agent manages are those the last sync drove. */
  lemma ManagedAfter(m: Memory, e: Event, n: string)
    ensures n in Remember(m, e).managed <==> if e.Sync? then Drives(e, n) else n in m.managed
  {
    hide ExtrasAfter, ByName;
  }

  /** One event, seen by one device name. */
  lemma DevicesGive(net: Net, m: Memory, e: Event, ds: Devices, ds': Devices, n: string)
    requires DevStep(net, m, e, ds, ds')
    ensures Drives(e, n) ==> n in ds'
    ensures e.Sync? && !Drives(e, n) ==> (n in ds' <==> n in ds && n !in m.managed) && (n in ds' ==> ds'[n] == ds[n])
  {
    hide DeviceStep;
    if Drives(e, n) {
      var ifaces := Driven(e.driver, e.ifaces);
      NamedIface(ifaces, n);
      var i :| 0 <= i < |ifaces| && ifaces[i].name == n;
      assert DeviceStepped(net, ifaces[i], ds, ds');
    }
  }

  lemma {:induction false} NamedIface(ifaces: seq<Interface>, n: string)
    requires n in ByName(ifaces)
    ensures exists i :: 0 <= i < |ifaces| && ifaces[i].name == n
  {
    var k := |ifaces| - 1;
    if ifaces[k].name != n {
      NamedIface(ifaces[..k], n);
      var i :| 0 <= i < k && ifaces[..k][i].name == n;
      assert ifaces[i].name == n;
    }
  }

  /** Devices along any run, engine switches included. A device the kernel engine manages is there; one it managed
      once and does not any more is gone, however long ago that was; any other is as the host had it. */
  lemma {:induction false} DevicesAlongRun(net: Net, run: seq<Event>, ds: seq<Devices>, n: string)
    requires DevRun(net, run, ds)
    ensures var now, managed := ds[|run|], MemoryAfter(run).managed;
            && (n in managed ==> n in now && EverDriven(run, n))
            && (EverDriven(run, n) && n !in managed ==> n !in now)
            && (!EverDriven(run, n) ==> (n in now <==> n in ds[0]) && (n in now ==> now[n] == ds[0][n]))
  {
    hide DevStep, MemoryAfter, Drives, Remember;
    if run == [] {
      NothingManagedYet(n);
    } else {
      var k := |run| - 1;
      var init, last := run[..k], run[k];
      assert run == init + [last];
      DevRunPrefix(net, run, ds);
      DevicesAlongRun(net, init, ds[..k + 1], n);
      DrivenPush(init, last, n);
      ManagedAfter(MemoryAfter(init), last, n);
      assert MemoryAfter(run) == Remember(MemoryAfter(init), last) by { OneMoreEvent(init, last); }
      DevicesGive(net, MemoryAfter(init), last, ds[k], ds[k + 1], n);
      if last.Tick? { TickLeaves(net, MemoryAfter(init), last, ds[k], ds[k + 1], n); }
    }
  }

  lemma OneMoreEvent(run: seq<Event>, e: Event)
    ensures MemoryAfter(run + [e]) == Remember(MemoryAfter(run), e)
  {
    hide Remember;
    assert (run + [e])[..|run|] == run;
  }

  lemma NothingManagedYet(n: string)
    ensures n !in MemoryAfter([]).managed && !EverDriven([], n)
  {
  }

  lemma TickLeaves(net: Net, m: Memory, e: Event, ds: Devices, ds': Devices, n: string)
    requires e.Tick? && DevStep(net, m, e, ds, ds')
    ensures ds' == ds && !Drives(e, n)
  {
  }

  // ---- sessions ---------------------------------------------------------------------------------

  /** A session survives one reconciliation exactly when the configuration is malformed, which changes no
      peer, or writes the key the way the kernel prints it; a peer that was lost never gets its old
      session back. */
  lemma SessionStep(net: Net, iface: Interface, d: Device, r: Device, k: string, stamp: nat)
    requires DeviceStep(net, iface, d, r) && net.Valid() && ValidDevice(d) && CanonicalPeers(net, d)
    requires stamp < d.created
    ensures ValidDevice(r) && CanonicalPeers(net, r) && r.created >= d.created
    ensures k in r.peers && r.peers[k] == stamp <==>
              k in d.peers && d.peers[k] == stamp && (Malformed(net, iface) || k in Written(iface.peers))
  {
    hide DeviceStep, Written, Updates, Wanted;
    PeersKeptIff(net, iface, d, r);
    if !Malformed(net, iface) {
      UpdatesParse(net, iface);
      PeerDelta(net, iface, d, r);
      WantedAreWritten(net, iface.peers);
    }
  }

  lemma UpdatesParse(net: Net, iface: Interface)
    requires !Malformed(net, iface)
    ensures Updates(net, iface.peers).Some?
  {
  }

  /** The sync leaves the sessions of the key alone on this device. */
  ghost predicate Spares(net: Net, e: Event, n: string, k: string)
    requires e.Sync?
  {
    exists iface :: iface in e.ifaces && iface.name == n && (Malformed(net, iface) || k in Written(iface.peers))
  }

  lemma SyncStep(net: Net, m: Memory, e: Event, ds: Devices, ds': Devices, n: string, k: string, stamp: nat)
    requires e.Sync? && Drives(e, n) && DistinctNames(e.ifaces) && DevStep(net, m, e, ds, ds') && net.Valid()
    requires n in ds && ValidDevice(ds[n]) && CanonicalPeers(net, ds[n]) && stamp < ds[n].created
    ensures n in ds' && ValidDevice(ds'[n]) && CanonicalPeers(net, ds'[n]) && ds'[n].created >= ds[n].created
    ensures k in ds'[n].peers && ds'[n].peers[k] == stamp <==>
              k in ds[n].peers && ds[n].peers[k] == stamp && Spares(net, e, n, k)
  {
    hide DeviceStep, Written, Malformed, ValidDevice, CanonicalPeers, DevStep, Drives, DistinctNames;
    var i := SteppedAt(net, m, e, ds, ds', n);
    SessionStep(net, e.ifaces[i], ds[n], ds'[n], k, stamp);
    OnlyOne(e.ifaces, i);
    assert e.ifaces[i] in e.ifaces;
  }

  /** The interface of this name, and what the sync did to its device. */
  lemma SteppedAt(net: Net, m: Memory, e: Event, ds: Devices, ds': Devices, n: string) returns (i: nat)
    requires e.Sync? && Drives(e, n) && DevStep(net, m, e, ds, ds')
    ensures i < |e.ifaces| && e.ifaces[i].name == n && n in ds'
    ensures DeviceStep(net, e.ifaces[i], DeviceOf(ds, n), ds'[n])
  {
    hide DeviceStep, DevicesLeft, ByName;
    NamedIface(Driven(e.driver, e.ifaces), n);
    i :| 0 <= i < |Driven(e.driver, e.ifaces)| && Driven(e.driver, e.ifaces)[i].name == n;
    assert DeviceStepped(net, e.ifaces[i], ds, ds');
  }

  lemma OnlyOne(ifaces: seq<Interface>, i: nat)
    requires DistinctNames(ifaces) && i < |ifaces|
    ensures forall other | other in ifaces && other.name == ifaces[i].name :: other == ifaces[i]
  {
  }

  /** Sessions along any stretch of a run in which the kernel engine keeps driving the interface: a peer on the
      device at the start is still there in the same session at the end exactly when every sync on the way
      wrote its key the way the kernel prints it, or was malformed for that interface. No edit of other
      peers, other interfaces, links or custom lines, and no tick, ever costs a peer its session. */
  lemma {:induction false} SessionKeptIff(net: Net, run: seq<Event>, ds: seq<Devices>, from: nat, n: string, k: string)
    requires DevRun(net, run, ds) && ProperRun(run) && net.Valid() && from <= |run|
    requires n in ds[from] && ValidDevice(ds[from][n]) && CanonicalPeers(net, ds[from][n]) && k in ds[from][n].peers
    requires forall i | from <= i < |run| && run[i].Sync? :: Drives(run[i], n)
    ensures n in ds[|run|]
    ensures var d, d' := ds[from][n], ds[|run|][n];
            && ValidDevice(d') && CanonicalPeers(net, d') && d'.created >= d.created
            && (k in d'.peers && d'.peers[k] == d.peers[k] <==>
                forall i | from <= i < |run| && run[i].Sync? :: Spares(net, run[i], n, k))
  {
    hide DevStep, MemoryAfter, Drives, Spares, ProperRun, Proper, CanonicalPeers;
    if from < |run| {
      var m := |run| - 1;
      var init, last := run[..m], run[m];
      DevRunPrefix(net, run, ds);
      ProperPrefix(run);
      assert forall i | 0 <= i < m :: init[i] == run[i];
      SessionKeptIff(net, init, ds[..m + 1], from, n, k);
      if last.Sync? {
        DistinctOf(MemoryAfter(init), last);
        SyncStep(net, MemoryAfter(init), last, ds[m], ds[m + 1], n, k, ds[from][n].peers[k]);
      } else {
        TickLeaves(net, MemoryAfter(init), last, ds[m], ds[m + 1], n);
      }
    }
  }
}
