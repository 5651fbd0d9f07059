/** node/controller.go, Run: the loop that drives heartbeats and the watchdog. Whichever engine the panel asks
    for and however often sing-box fails, a run of the loop is exactly a run of syncs and ticks in the
    sense of RuleRuns, so everything proved there about firewall rules, entries, links and routes holds of
    the host the loop works on. */
module NodeRun {
  import opened Host
  import opened Types
  import opened Counts
  import opened KernelEngine
  import opened SyncEffects
  import opened Controller
  import opened RuleRuns
  import opened Nat
  import EntryRuns
  import RuleTheorems
  import RouteRuns
  import ExtrasReconcile
  import OverlayRuns
  import DeviceRuns
  import Overlay

  /** What one turn of the loop finds: a heartbeat with the panel's answers and how sing-box would do, or the
      watchdog's timer with the presence tests it will use. */
  datatype Input =
    | Heartbeat(reported: Option<nat>, resp: Option<SyncResponse>, healthy: bool)
    | Watchdog(p: Probes)

  /** The host and the agent's memory at one moment. */
  datatype NodeState = NodeState(m: Memory, rules: multiset<Rule>, entries: multiset<Argv>, wires: Overlay.Wires,
                                 devices: Devices)

  type Devices = DeviceRuns.Devices

  /** The panel asks for one of the two engines, names interfaces apart and names links plainly. */
  ghost predicate Usable(input: Input) {
    input.Heartbeat? && input.resp.Some? ==>
      && EngineName(input.resp.value.engine) in {"kernel", "singbox"}
      && DistinctNames(Interfaces(input.resp.value.interfaces))
      && Overlay.PlainNames(OverlayConfigs(input.resp.value.interfaces))
  }

  /** Some response of the run asks for these interfaces. */
  ghost predicate Offered(inputs: seq<Input>, ifaces: seq<Interface>) {
    exists i :: 0 <= i < |inputs| && inputs[i].Heartbeat? && inputs[i].resp.Some?
        && Interfaces(inputs[i].resp.value.interfaces) == ifaces
  }

  ghost predicate SoundFor(inputs: seq<Input>, p: Probes) {
    ProbesSound(p, []) && forall ifaces | Offered(inputs, ifaces) :: ProbesSound(p, ifaces)
  }

  /** The watchdog's presence tests claim nothing that is gone, whatever configuration it watches. */
  ghost predicate SoundProbes(inputs: seq<Input>) {
    forall i | 0 <= i < |inputs| && inputs[i].Watchdog? :: SoundFor(inputs, inputs[i].p)
  }

  /** The run accounts for everything: the memory, every copy of every rule and, when the presence tests
      are sound, of every entry, and the links, routes and devices at each of its events. */
  ghost predicate Explains(net: Net, src: LinkView, run: seq<Event>, ws: seq<Overlay.Wires>, ds: seq<Devices>,
                           from: NodeState, now: NodeState, sound: bool) {
    && ProperRun(run) && now.m == MemoryAfter(run)
    && (forall r :: now.rules[r] == CopiesAfterRun(net, run, r, from.rules[r]))
    && (sound ==> forall k :: now.entries[k] == EntryRuns.EntriesAfterRun(run, k, from.entries[k]))
    && OverlayRuns.WireRun(src, run, ws) && ws[0] == from.wires && ws[|run|] == now.wires
    && DeviceRuns.DevRun(net, run, ds) && ds[0] == from.devices && ds[|run|] == now.devices
    && (sound ==> forall i | 0 <= i < |run| && run[i].Tick? :: ExtrasReconcile.RouteProbeSound(run[i].probe))
  }

  /** One event of the run, on the host. */
  ghost predicate Happened(net: Net, src: LinkView, e: Event, was: NodeState, now: NodeState, sound: bool) {
    && Proper(was.m, e) && now.m == Remember(was.m, e)
    && (forall r :: now.rules[r] == CopiesAfterEvent(net, was.m, e, r, was.rules[r]))
    && (sound ==> forall k :: now.entries[k] == EntryRuns.EntriesAfterEvent(was.m, e, k, was.entries[k]))
    && OverlayRuns.WireStep(src, was.m, e, was.wires, now.wires)
    && DeviceRuns.DevStep(net, was.m, e, was.devices, now.devices)
    && (sound && e.Tick? ==> ExtrasReconcile.RouteProbeSound(e.probe))
  }

  lemma ProperPush(run: seq<Event>, e: Event)
    requires ProperRun(run) && Proper(MemoryAfter(run), e)
    ensures ProperRun(run + [e]) && MemoryAfter(run + [e]) == Remember(MemoryAfter(run), e)
  {
    hide Proper, Remember;
    var all := run + [e];
    assert all[..|run|] == run;
    forall i | 0 <= i < |all| ensures Proper(MemoryAfter(all[..i]), all[i]) {
      if i < |run| { assert all[..i] == run[..i]; }
    }
  }

  lemma CopiesPush(net: Net, run: seq<Event>, e: Event, r: Rule, base: nat)
    ensures CopiesAfterRun(net, run + [e], r, base) == CopiesAfterEvent(net, MemoryAfter(run), e, r,
            CopiesAfterRun(net, run, r, base))
  {
    hide CopiesAfterEvent, MemoryAfter;
    assert (run + [e])[..|run|] == run;
  }

  lemma EntriesPush(run: seq<Event>, e: Event, k: Argv, base: nat)
    ensures EntryRuns.EntriesAfterRun(run + [e], k, base)
            == EntryRuns.EntriesAfterEvent(MemoryAfter(run), e, k, EntryRuns.EntriesAfterRun(run, k, base))
  {
    hide EntryRuns.EntriesAfterEvent, MemoryAfter;
    assert (run + [e])[..|run|] == run;
  }

  lemma WiresPush(src: LinkView, run: seq<Event>, ws: seq<Overlay.Wires>, e: Event, w: Overlay.Wires)
    requires OverlayRuns.WireRun(src, run, ws) && OverlayRuns.WireStep(src, MemoryAfter(run), e, ws[|run|], w)
    ensures OverlayRuns.WireRun(src, run + [e], ws + [w])
  {
    hide OverlayRuns.WireStep, MemoryAfter;
    var all, more := run + [e], ws + [w];
    forall i | 0 <= i < |all| ensures OverlayRuns.WireStep(src, MemoryAfter(all[..i]), all[i], more[i], more[i + 1]) {
      if i < |run| { assert all[..i] == run[..i]; } else { assert all[..i] == run; }
    }
  }

  lemma DevicesPush(net: Net, run: seq<Event>, ds: seq<Devices>, e: Event, d: Devices)
    requires DeviceRuns.DevRun(net, run, ds) && DeviceRuns.DevStep(net, MemoryAfter(run), e, ds[|run|], d)
    ensures DeviceRuns.DevRun(net, run + [e], ds + [d])
  {
    hide DeviceRuns.DevStep, MemoryAfter;
    var all, more := run + [e], ds + [d];
    forall i | 0 <= i < |all| ensures DeviceRuns.DevStep(net, MemoryAfter(all[..i]), all[i], more[i], more[i + 1]) {
      if i < |run| { assert all[..i] == run[..i]; } else { assert all[..i] == run; }
    }
  }

  lemma {:induction false} ExplainsPush(net: Net, src: LinkView, run: seq<Event>, ws: seq<Overlay.Wires>,
                                        ds: seq<Devices>, e: Event, from: NodeState, was: NodeState, now: NodeState,
                                        sound: bool)
    requires Explains(net, src, run, ws, ds, from, was, sound) && Happened(net, src, e, was, now, sound)
    ensures Explains(net, src, run + [e], ws + [now.wires], ds + [now.devices], from, now, sound)
  {
    hide Proper, ProperRun, Remember, MemoryAfter, CopiesAfterRun, CopiesAfterEvent, EntryRuns.EntriesAfterRun,
         EntryRuns.EntriesAfterEvent, OverlayRuns.WireStep, DeviceRuns.DevStep;
    ProperPush(run, e);
    forall r { CopiesPush(net, run, e, r, from.rules[r]); }
    forall k { EntriesPush(run, e, k, from.entries[k]); }
    WiresPush(src, run, ws, e, now.wires);
    DevicesPush(net, run, ds, e, now.devices);
  }

  lemma ExplainsNothing(net: Net, src: LinkView, from: NodeState, sound: bool)
    requires from.m == START
    ensures Explains(net, src, [], [from.wires], [from.devices], from, from, sound)
  {
  }

  // ---- one turn of the loop ---------------------------------------------------------------------

  ghost function Seen(a: Agent): NodeState
    reads a, a.kernel, a.h
  {
    NodeState(Memory(a.kernel.managed, a.vxlan, a.extras, a.desired), a.h.rules, a.h.entries, a.Wires(),
              a.h.devices)
  }

  /** A sync of the agent is a Sync event. */
  lemma SyncHappened(net: Net, src: LinkView, was: NodeState, now: NodeState, d: Driver, ifaces: seq<Interface>,
                     links: seq<LinkConfig>, order: seq<string>, s: HostState, s': HostState, sound: bool)
    requires DistinctNames(ifaces)
    requires HostSynced(net, was.m.managed, now.m.managed, was.m.extras, d, ifaces, order, was.m.vxlan, links, s, s')
    requires s == HostState(was.rules, was.entries, was.devices) && s' == HostState(now.rules, now.entries, now.devices)
    requires now.m.vxlan == links && now.m.extras == ExtrasAfter(was.m.extras, ifaces)
    requires now.m.desired == if d.Succeeds() then ifaces else was.m.desired
    requires now.wires == SyncWires(was.wires, src, was.m.extras, ifaces, was.m.vxlan, links, d.Succeeds())
    ensures Happened(net, src, Sync(ifaces, links, order, d), was, now, sound)
  {
    hide SyncCopies, SyncEntries, SyncWires, ExtrasAfter, ByName, DevicesStepped, DevicesLeft, StaleNames;
  }

  lemma TickHappened(net: Net, src: LinkView, probe: RouteProbe, was: NodeState, now: NodeState, sound: bool)
    requires now.m == was.m && Ticked(was.m.desired, was.rules, now.rules) && now.devices == was.devices
    requires sound ==> TickedEntries(was.m.desired, was.entries, now.entries) && ExtrasReconcile.RouteProbeSound(probe)
    requires now.wires == Overlay.Wires(was.wires.links, TickRoutes(was.wires.routes, was.m.desired, probe))
    ensures Happened(net, src, Tick(probe), was, now, sound)
  {
    hide TickTouches, TickEntryTouches, Fold, TickRoutes;
  }

  /** The agent runs one of the two engines, or none yet. */
  ghost predicate Ready(a: Agent)
    reads a, a.kernel
  {
    a.Valid() && a.engine in {None, Some("kernel"), Some("singbox")}
  }

  /** A heartbeat either changes nothing or is one Sync event. */
  method HeartbeatTurn(a: Agent, force: bool, reported: Option<nat>, resp: Option<SyncResponse>, healthy: bool,
                       ghost sound: bool)
    returns (ghost event: Option<Event>)
    requires Ready(a) && Usable(Heartbeat(reported, resp, healthy))
    modifies a, a.kernel, a.h
    ensures Ready(a)
    ensures a.Thoughts() == Beat(old(a.Thoughts()), force, reported, resp, healthy)
    ensures if event.None? then Seen(a) == old(Seen(a))
            else Happened(a.net, a.h.view, event.value, old(Seen(a)), Seen(a), sound)
  {
    hide Interfaces, OverlayConfigs, HostSynced, SyncWires, Overlay.PlainNames, DistinctNames, Happened, ExtrasAfter;
    ghost var m := a.Thoughts();
    ghost var was, before := Seen(a), a.State();
    ghost var turn := a.HeartbeatTick(force, reported, resp, healthy);
    event := None;
    if Fetches(m, force, reported, resp) {
      ghost var ifaces, links := Interfaces(resp.value.interfaces), OverlayConfigs(resp.value.interfaces);
      ghost var d := DriverOf(resp.value, healthy);
      event := Some(Sync(ifaces, links, turn.order, d));
      SyncHappened(a.net, a.h.view, was, Seen(a), d, ifaces, links, turn.order, before, a.State(), sound);
    }
  }

  lemma RouteTestSound(p: Probes, ifaces: seq<Interface>)
    requires ProbesSound(p, ifaces)
    ensures ExtrasReconcile.RouteProbeSound(p.route)
  {
    hide ExtrasReconcile.RouteProbeSound;
  }

  method WatchdogTurn(a: Agent, p: Probes, ghost sound: bool)
    requires Ready(a) && (sound ==> ProbesSound(p, a.desired))
    modifies a.h
    ensures Happened(a.net, a.h.view, Tick(p.route), old(Seen(a)), Seen(a), sound)
  {
    hide Ticked, TickedEntries, ProbesSound, ProbesExact, Happened, TickRoutes, ExtrasReconcile.RouteProbeSound;
    ghost var was := Seen(a);
    if sound { RouteTestSound(p, a.desired); }
    a.WatchdogTick(p);
    TickHappened(a.net, a.h.view, p.route, was, Seen(a), sound);
  }

  // ---- the loop ---------------------------------------------------------------------------------

  /** What the agent remembers after the given turns; the first heartbeat is forced. */
  function MindOver(inputs: seq<Input>): Mind {
    if inputs == [] then BLANK else
      var before, last := MindOver(inputs[..|inputs| - 1]), inputs[|inputs| - 1];
      if last.Heartbeat? then Beat(before, |inputs| == 1, last.reported, last.resp, last.healthy) else before
  }

  /** What the watchdog watches was asked for by some response. */
  lemma {:induction false} DesiredWasOffered(inputs: seq<Input>, n: nat)
    requires n <= |inputs|
    ensures MindOver(inputs[..n]).desired == [] || Offered(inputs, MindOver(inputs[..n]).desired)
  {
    hide Interfaces, OverlayConfigs, ExtrasAfter;
    if n > 0 {
      assert inputs[..n][..n - 1] == inputs[..n - 1] && inputs[..n][n - 1] == inputs[n - 1];
      DesiredWasOffered(inputs, n - 1);
    }
  }

  /** One turn, whichever timer fired. */
  method Turn(a: Agent, force: bool, input: Input, ghost sound: bool) returns (ghost event: Option<Event>)
    requires Ready(a) && Usable(input)
    requires input.Watchdog? && sound ==> ProbesSound(input.p, a.desired)
    modifies a, a.kernel, a.h
    ensures Ready(a)
    ensures a.Thoughts() == if input.Heartbeat? then Beat(old(a.Thoughts()), force, input.reported, input.resp,
                                                          input.healthy)
                              else old(a.Thoughts())
    ensures if event.None? then Seen(a) == old(Seen(a))
            else Happened(a.net, a.h.view, event.value, old(Seen(a)), Seen(a), sound)
  {
    hide Usable, Happened, Beat, ProbesSound;
    match input {
      case Heartbeat(reported, resp, healthy) =>
        event := HeartbeatTurn(a, force, reported, resp, healthy, sound);
      case Watchdog(p) =>
        WatchdogTurn(a, p, sound);
        event := Some(Tick(p.route));
    }
  }

  /** Run: a forced heartbeat, then heartbeats and watchdog ticks as they come. The run of events the
      loop went through accounts for the whole host. */
  method Run(a: Agent, inputs: seq<Input>) returns (ghost run: seq<Event>, ghost ws: seq<Overlay.Wires>,
                                                    ghost ds: seq<Devices>)
    requires a.Thoughts() == BLANK && a.kernel.managed == map[]
    requires inputs != [] ==> inputs[0].Heartbeat?
    requires forall i | 0 <= i < |inputs| :: Usable(inputs[i])
    modifies a, a.kernel, a.h
    ensures a.Thoughts() == MindOver(inputs)
    ensures Explains(a.net, a.h.view, run, ws, ds, old(Seen(a)), Seen(a), SoundProbes(inputs))
  {
    hide Usable, Happened, Explains, Beat, SoundProbes, ProbesSound;
    ghost var from := Seen(a);
    ghost var sound := SoundProbes(inputs);
    run, ws, ds := [], [from.wires], [from.devices];
    ExplainsNothing(a.net, a.h.view, from, sound);
    for i := 0 to |inputs|
      invariant Ready(a) && a.Thoughts() == MindOver(inputs[..i])
      invariant Explains(a.net, a.h.view, run, ws, ds, from, Seen(a), sound)
    {
      ghost var was := Seen(a);
      DesiredWasOffered(inputs, i);
      if sound && inputs[i].Watchdog? { ProbesHold(inputs, i, a.desired); }
      ghost var event := Turn(a, i == 0, inputs[i], sound);
      assert inputs[..i + 1][..i] == inputs[..i];
      if event.Some? {
        ExplainsPush(a.net, a.h.view, run, ws, ds, event.value, from, was, Seen(a), sound);
        run, ws, ds := run + [event.value], ws + [Seen(a).wires], ds + [Seen(a).devices];
      }
    }
    assert inputs[..|inputs|] == inputs;
  }

  lemma ProbesHold(inputs: seq<Input>, i: nat, ifaces: seq<Interface>)
    requires SoundProbes(inputs) && i < |inputs| && inputs[i].Watchdog? && (ifaces == [] || Offered(inputs, ifaces))
    ensures ProbesSound(inputs[i].p, ifaces)
  {
    hide ProbesSound, Offered;
    assert SoundFor(inputs, inputs[i].p);
  }

  // ---- what this means for the host -------------------------------------------------------------

  /** Whenever the loop has just synced, also with a failed engine, a rule that some interface of that
      configuration wants as a NAT rule has the copies the host came with plus exactly one, unless a custom
      line that spells it was just dropped. */
  lemma HostNatExact(net: Net, src: LinkView, run: seq<Event>, e: Event, ws: seq<Overlay.Wires>, ds: seq<Devices>,
                     from: NodeState, now: NodeState, r: Rule)
    requires Explains(net, src, run + [e], ws, ds, from, now, false) && e.Sync? && net.Valid() && !OverlayShape(r)
    requires RuleTheorems.NatWanted(net, e.ifaces, r)
    requires RuleRuns.Seen(net, run + [e], r) ==> from.rules[r] == 0
    ensures now.rules[r] == from.rules[r] + if RuleTheorems.CustomKeeps(MemoryAfter(run).extras, e.ifaces, r) then 1
            else 0
  {
    hide OverlayShape, RuleTheorems.NatWanted, RuleTheorems.CustomLeaves, CopiesAfterRun, MemoryAfter, ProperRun,
         RuleRuns.Seen,
         OverlayRuns.WireRun;
    RuleTheorems.NatExact(net, run, e, r, from.rules[r]);
  }

  /** After a successful sync and the next watchdog tick the host holds exactly what the newest configuration
      stands for, on top of what it came with, whatever its interfaces deleted from each other, when nothing
      strayed and no vanished interface left the rule behind. */
  lemma HostRuleExactAfterTick(net: Net, src: LinkView, run: seq<Event>, e: Event, ws: seq<Overlay.Wires>,
                               ds: seq<Devices>, from: NodeState, now: NodeState, tick: Event, r: Rule)
    requires Explains(net, src, run + [e] + [tick], ws, ds, from, now, false) && net.Valid() && !OverlayShape(r)
    requires e.Sync? && e.driver.Succeeds() && tick.Tick?
    requires RuleRuns.Seen(net, run + [e], r) ==> from.rules[r] == 0
    requires RuleTheorems.NoLeftover(MemoryAfter(run), e.ifaces, r) && !Stray(net, run, r)
    ensures now.rules[r] == from.rules[r] + if RuleTheorems.Stands(net, MemoryAfter(run), now.m.desired, r) then 1
            else 0
  {
    hide OverlayShape, RuleTheorems.NoLeftover, RuleTheorems.Stands, CopiesAfterRun, RuleRuns.Seen, ExtrasAfter,
         ByName, Proper, Stray,
         OverlayRuns.WireRun;
    EndsWithTick(run, e, tick);
    RuleTheorems.TickedExact(net, run, e, tick, r, from.rules[r]);
  }

  lemma EndsWithTick(run: seq<Event>, e: Event, tick: Event)
    requires ProperRun(run + [e] + [tick]) && e.Sync? && tick.Tick?
    ensures ProperRun(run + [e]) && MemoryAfter(run + [e] + [tick]) == Remember(MemoryAfter(run), e)
            == MemoryAfter(run + [e])
    ensures (run + [e] + [tick])[|run| + 1] == tick
    ensures MemoryAfter(run + [e]).desired == if e.driver.Succeeds() then e.ifaces else MemoryAfter(run).desired
  {
    hide MemoryAfter, ProperRun, Proper, ExtrasAfter, ByName;
    assert (run + [e] + [tick])[..|run + [e]|] == run + [e];
    ProperPrefix(run + [e] + [tick]);
    OverlayRuns.MemoryPush(run, e);
    OverlayRuns.MemoryPush(run + [e], tick);
  }

  /** The same for policy lines and custom ip rules, when the presence tests are sound. */
  lemma HostEntriesExact(net: Net, src: LinkView, run: seq<Event>, e: Event, ws: seq<Overlay.Wires>, ds: seq<Devices>,
                         from: NodeState, now: NodeState, tick: Event, k: Argv)
    requires Explains(net, src, run + [e] + [tick], ws, ds, from, now, true)
    requires e.Sync? && e.driver.Succeeds() && tick.Tick?
    requires EntryRuns.EverListed(run + [e], k) ==> from.entries[k] == 0
    requires EntryRuns.NoLeftoverEntry(MemoryAfter(run), e.ifaces, k) && !EntryRuns.StrayEntry(run, k)
    ensures now.entries[k] == from.entries[k] + if EntryRuns.Listed(now.m.desired, k) then 1 else 0
  {
    hide EntryRuns.Listed, EntryRuns.NoLeftoverEntry, EntryRuns.EntriesAfterRun, EntryRuns.EverListed,
         EntryRuns.StrayEntry,
         ExtrasAfter, ByName, Proper, OverlayRuns.WireRun, ExtrasReconcile.RouteProbeSound;
    EndsWithTick(run, e, tick);
    EntryRuns.TickedEntriesExact(run, e, tick, k, from.entries[k]);
  }

  /** And for custom routes: after a tick every destination the recorded state lists leaves the way its last line
      says, also after a failed sync, when that state is an older one; one that neither it nor the sync lists,
      and no overlay link has to do with, has the route the host came with. */
  lemma HostRoutesExact(net: Net, src: LinkView, run: seq<Event>, e: Event, ws: seq<Overlay.Wires>, ds: seq<Devices>,
                        from: NodeState, now: NodeState, tick: Event, k: RouteKey)
    requires Explains(net, src, run + [e] + [tick], ws, ds, from, now, true) && e.Sync? && tick.Tick?
    ensures RouteRuns.RouteListed(now.m.desired, k) ==>
              k in now.wires.routes && Some(now.wires.routes[k])
                  == ExtrasReconcile.LastVia(CustomRoutes(now.m.desired), k)
    ensures && !RouteRuns.RouteListed(now.m.desired, k) && !RouteRuns.RouteListed(e.ifaces, k)
            && RouteRuns.Apart(run + [e], from.wires.routes, k)
            && (RouteRuns.RouteEverListed(run + [e], k) ==> k !in from.wires.routes)
            && RouteRuns.NoLeftoverRoute(MemoryAfter(run), e.ifaces, k)
                && (forall via :: !RouteRuns.RouteStray(run, k, via))
            ==> RouteRuns.SameAt(now.wires.routes, from.wires.routes, k)
  {
    hide RouteRuns.RouteListed, RouteRuns.Apart, RouteRuns.RouteEverListed, RouteRuns.NoLeftoverRoute,
         RouteRuns.SameAt, RouteRuns.RouteStray,
         OverlayRuns.WireStep, ExtrasReconcile.RouteProbeSound, ExtrasReconcile.LastVia, CustomRoutes, CopiesAfterRun,
         EntryRuns.EntriesAfterRun, ExtrasAfter, ByName, Proper, MemoryAfter;
    EndsWithTick(run, e, tick);
    if RouteRuns.RouteListed(now.m.desired, k) {
      RouteRuns.ListedRoutePlaced(src, run + [e], tick, ws, k);
    } else if && !RouteRuns.RouteListed(e.ifaces, k) && RouteRuns.Apart(run + [e], from.wires.routes, k)
              && (RouteRuns.RouteEverListed(run + [e], k) ==> k !in from.wires.routes)
              && RouteRuns.NoLeftoverRoute(MemoryAfter(run), e.ifaces, k)
                  && (forall via :: !RouteRuns.RouteStray(run, k, via)) {
      RouteRuns.UnlistedRouteExact(src, run, e, tick, ws, k);
    }
  }

  /** And for WireGuard devices, engine switches included: one the kernel engine manages is there, one it managed once
      and does not any more is gone, any other is as the host had it. */
  lemma HostDevicesExact(net: Net, src: LinkView, run: seq<Event>, ws: seq<Overlay.Wires>, ds: seq<Devices>,
                         from: NodeState, now: NodeState, n: string, sound: bool)
    requires Explains(net, src, run, ws, ds, from, now, sound)
    ensures n in now.m.managed ==> n in now.devices
    ensures DeviceRuns.EverDriven(run, n) && n !in now.m.managed ==> n !in now.devices
    ensures !DeviceRuns.EverDriven(run, n) ==>
              (n in now.devices <==> n in from.devices) && (n in now.devices ==> now.devices[n] == from.devices[n])
  {
    hide DeviceRuns.DevRun, DeviceRuns.EverDriven, OverlayRuns.WireRun, MemoryAfter, ProperRun, CopiesAfterRun,
         EntryRuns.EntriesAfterRun, ExtrasReconcile.RouteProbeSound;
    DeviceRuns.DevicesAlongRun(net, run, ds, n);
  }
}
