/** node/controller.go: the sync loop that composes the reconcilers. */
module Controller {
  import opened Host
  import opened Types
  import opened Counts
  import opened Nat
  import opened Policy
  import opened KernelEngine
  import opened SyncEffects
  import OverlayLink
  import Overlay
  import ExtrasReconcile
  import WgDevice

  /** One interface as the panel sends it. A panel that predates the tunnel list sends `legacy`. */
  datatype PanelInterface = PanelInterface(iface: Interface, tunnels: seq<LinkConfig>, legacy: Option<LinkConfig>)

  datatype SyncResponse = SyncResponse(revision: nat, engine: string, interfaces: seq<PanelInterface>)

  // ---- reading a response -----------------------------------------------------------------------

  function Interfaces(ins: seq<PanelInterface>): seq<Interface> {
    seq(|ins|, i requires 0 <= i < |ins| => ins[i].iface)
  }

  /** The tunnels of one interface, each with the MTU of the interface it rides on. */
  function TunnelConfigs(tunnels: seq<LinkConfig>, mtu: int): seq<LinkConfig> {
    if tunnels == [] then [] else
      var t := tunnels[|tunnels| - 1];
      TunnelConfigs(tunnels[..|tunnels| - 1], mtu) + if t.name != "" then [t.(tunnelMTU := mtu)] else []
  }

  function TunnelsOf(panel: PanelInterface): seq<LinkConfig> {
    if panel.tunnels == [] && panel.legacy.Some? then [panel.legacy.value] else panel.tunnels
  }

  function OverlayConfigs(ins: seq<PanelInterface>): seq<LinkConfig> {
    if ins == [] then [] else
      var last := ins[|ins| - 1];
      OverlayConfigs(ins[..|ins| - 1]) + TunnelConfigs(TunnelsOf(last), last.iface.mtu)
  }

  method ReadTunnels(tunnels: seq<LinkConfig>, mtu: int) returns (out: seq<LinkConfig>)
    ensures out == TunnelConfigs(tunnels, mtu)
  {
    out := [];
    for k := 0 to |tunnels|
      invariant out == TunnelConfigs(tunnels[..k], mtu)
    {
      assert tunnels[..k + 1][..k] == tunnels[..k];
      if tunnels[k].name == "" { continue; }
      out := out + [tunnels[k].(tunnelMTU := mtu)];
    }
    assert tunnels[..|tunnels|] == tunnels;
  }

  method ReadOverlayConfigs(ins: seq<PanelInterface>) returns (out: seq<LinkConfig>)
    ensures out == OverlayConfigs(ins)
  {
    hide TunnelConfigs;
    out := [];
    for i := 0 to |ins|
      invariant out == OverlayConfigs(ins[..i])
    {
      assert ins[..i + 1][..i] == ins[..i];
      var tunnels := ins[i].tunnels;
      if |tunnels| == 0 && ins[i].legacy.Some? {
        tunnels := [ins[i].legacy.value];
      }
      var links := ReadTunnels(tunnels, ins[i].iface.mtu);
      out := out + links;
    }
    assert ins[..|ins|] == ins;
  }

  /** The interface carries this tunnel: in its list, or as the single tunnel of an old panel, which counts
      only when there is no list. */
  predicate Carries(panel: PanelInterface, t: LinkConfig) {
    t in panel.tunnels || (panel.tunnels == [] && panel.legacy == Some(t))
  }

  predicate IsNamed(tunnels: seq<LinkConfig>, k: nat) { k < |tunnels| && tunnels[k].name != "" }

  /** The link is made from the k-th tunnel. */
  predicate LinkFrom(tunnels: seq<LinkConfig>, mtu: int, c: LinkConfig, k: nat) {
    IsNamed(tunnels, k) && c == tunnels[k].(tunnelMTU := mtu)
  }

  /** Positions of the named tunnels. */
  function NamedPositions(tunnels: seq<LinkConfig>): seq<nat> {
    if tunnels == [] then [] else
      var n := |tunnels| - 1;
      NamedPositions(tunnels[..n]) + if tunnels[n].name != "" then [n] else []
  }

  lemma {:induction false} PositionsMembers(tunnels: seq<LinkConfig>, k: nat)
    ensures k in NamedPositions(tunnels) <==> IsNamed(tunnels, k)
  {
    if tunnels != [] {
      PositionsMembers(tunnels[..|tunnels| - 1], k);
    }
  }

  lemma {:induction false} PositionsIncrease(tunnels: seq<LinkConfig>, i: nat, j: nat)
    requires i < j < |NamedPositions(tunnels)|
    ensures NamedPositions(tunnels)[i] < NamedPositions(tunnels)[j]
  {
    var n := |tunnels| - 1;
    var first := NamedPositions(tunnels[..n]);
    if j < |first| {
      PositionsIncrease(tunnels[..n], i, j);
    } else {
      PositionsMembers(tunnels[..n], first[i]);
    }
  }

  lemma {:induction false} PositionsMake(tunnels: seq<LinkConfig>, mtu: int, i: nat)
    ensures |NamedPositions(tunnels)| == |TunnelConfigs(tunnels, mtu)|
    ensures i < |NamedPositions(tunnels)| ==> LinkFrom(tunnels, mtu, TunnelConfigs(tunnels, mtu)[i],
                                                       NamedPositions(tunnels)[i])
  {
    if tunnels != [] {
      PositionsMake(tunnels[..|tunnels| - 1], mtu, i);
    }
  }

  /** Which tunnel, by its position, each link of one interface is made from: the named ones, all of them,
      in order, each with the MTU of the interface. */
  lemma TunnelOrder(tunnels: seq<LinkConfig>, mtu: int) returns (at: seq<nat>)
    ensures |at| == |TunnelConfigs(tunnels, mtu)|
    ensures forall i | 0 <= i < |at| :: LinkFrom(tunnels, mtu, TunnelConfigs(tunnels, mtu)[i], at[i])
    ensures forall i, j | 0 <= i < j < |at| :: at[i] < at[j]
    ensures forall k: nat | IsNamed(tunnels, k) :: k in at
  {
    hide *;
    at := NamedPositions(tunnels);
    PositionsMake(tunnels, mtu, 0);
    forall i | 0 <= i < |at| ensures LinkFrom(tunnels, mtu, TunnelConfigs(tunnels, mtu)[i],
                                              at[i]) { PositionsMake(tunnels, mtu, i); }
    forall i, j | 0 <= i < j < |at| ensures at[i] < at[j] { PositionsIncrease(tunnels, i, j); }
    forall k: nat | IsNamed(tunnels, k) ensures k in at { PositionsMembers(tunnels, k); }
  }

  /** Position (interface, tunnel), read interface by interface. */
  predicate Before(a: (nat, nat), b: (nat, nat)) { a.0 < b.0 || (a.0 == b.0 && a.1 < b.1) }

  /** The link is made from the tunnel at this position. */
  predicate MadeFrom(ins: seq<PanelInterface>, c: LinkConfig, at: (nat, nat)) {
    at.0 < |ins| && LinkFrom(TunnelsOf(ins[at.0]), ins[at.0].iface.mtu, c, at.1)
  }

  predicate NamedAt(ins: seq<PanelInterface>, at: (nat, nat)) {
    at.0 < |ins| && IsNamed(TunnelsOf(ins[at.0]), at.1)
  }

  /** The overlay links of a response: one for each named tunnel, in the order of the response. */
  lemma {:induction false} OverlayOrder(ins: seq<PanelInterface>) returns (at: seq<(nat, nat)>)
    ensures |at| == |OverlayConfigs(ins)|
    ensures forall i | 0 <= i < |at| :: MadeFrom(ins, OverlayConfigs(ins)[i], at[i])
    ensures forall i, j | 0 <= i < j < |at| :: Before(at[i], at[j])
    ensures forall k: nat, l: nat | NamedAt(ins, (k, l)) :: (k, l) in at
  {
    hide TunnelsOf, TunnelConfigs, LinkFrom, IsNamed;
    at := [];
    if ins != [] {
      var n := |ins| - 1;
      var init, last := ins[..n], ins[n];
      assert ins == init + [last];
      var first := OverlayOrder(init);
      var tail := TunnelOrder(TunnelsOf(last), last.iface.mtu);
      at := first + seq(|tail|, i requires 0 <= i < |tail| => (n, tail[i]));
      var out, rest := OverlayConfigs(ins), TunnelConfigs(TunnelsOf(last), last.iface.mtu);
      assert out == OverlayConfigs(init) + rest;
      forall i | 0 <= i < |at| ensures MadeFrom(ins, out[i], at[i]) {
        if i < |first| { assert MadeFrom(init, out[i], at[i]); } else { assert out[i] == rest[i - |first|]; }
      }
      forall i, j | 0 <= i < j < |at| ensures Before(at[i], at[j]) {
        if i < |first| && j >= |first| { assert MadeFrom(init, out[i], at[i]); }
      }
      forall k: nat, l: nat | NamedAt(ins, (k, l)) ensures (k, l) in at {
        if k < n {
          assert NamedAt(init, (k, l));
        } else {
          var i :| 0 <= i < |tail| && tail[i] == l;
          assert at[|first| + i] == (k, l);
        }
      }
    }
  }

  /** A link is among them exactly when some interface carries a named tunnel it is made from. */
  lemma OverlayMembers(ins: seq<PanelInterface>, c: LinkConfig)
    ensures c in OverlayConfigs(ins) <==>
            exists panel, t :: panel in ins && Carries(panel, t) && t.name != ""
                && c == t.(tunnelMTU := panel.iface.mtu)
  {
    hide OverlayConfigs;
    var at := OverlayOrder(ins);
    if c in OverlayConfigs(ins) {
      var i :| 0 <= i < |at| && OverlayConfigs(ins)[i] == c;
      var panel := ins[at[i].0];
      assert panel in ins && Carries(panel, TunnelsOf(panel)[at[i].1]);
    }
    if panel, t :| panel in ins && Carries(panel, t) && t.name != "" && c == t.(tunnelMTU := panel.iface.mtu) {
      var k :| 0 <= k < |ins| && ins[k] == panel;
      var l :| 0 <= l < |TunnelsOf(panel)| && TunnelsOf(panel)[l] == t;
      assert NamedAt(ins, (k, l));
      var i :| 0 <= i < |at| && at[i] == (k, l);
      assert OverlayConfigs(ins)[i] == c;
    }
  }

  method ReadInterfaces(ins: seq<PanelInterface>) returns (desired: seq<Interface>)
    ensures desired == Interfaces(ins)
  {
    desired := [];
    for i := 0 to |ins|
      invariant desired == Interfaces(ins[..i])
    {
      assert ins[..i + 1][..i] == ins[..i];
      desired := desired + [ins[i].iface];
    }
    assert ins[..|ins|] == ins;
  }

  /** The three presence tests of the watchdog. */
  datatype Probes = Probes(policy: (multiset<Argv>, string) -> bool,
                           route: RouteProbe,
                           rule: (multiset<Argv>, Argv) -> bool)

  /** No test claims an entry or a route that is gone, and the test for ip rules misses none that is there:
      each pass adds a copy of a rule that test misses, while a policy line or route is only replaced by
      itself. */
  ghost predicate ProbesSound(p: Probes, ifaces: seq<Interface>) {
    ExtrasReconcile.RuleProbeExact(p.rule) && ExtrasReconcile.RouteProbeSound(p.route)
    && forall i | 0 <= i < |ifaces| :: NeverOverclaims(p.policy, ifaces[i].policyRoutes)
  }

  /** And no test for policy lines misses one that is there. */
  ghost predicate ProbesExact(p: Probes, ifaces: seq<Interface>) {
    ExtrasReconcile.RuleProbeExact(p.rule) && ExtrasReconcile.RouteProbeSound(p.route)
    && forall i | 0 <= i < |ifaces| :: Accurate(p.policy, ifaces[i].policyRoutes)
  }

  /** The engine a response asks for; an empty name means the kernel engine. */
  function EngineName(name: string): string { if name == "" then "kernel" else name }

  /** Any name but that of sing-box builds the kernel engine. */
  predicate IsKernel(name: string) { name != "singbox" }

  /** What a sync leaves of the rules and entries. */
  ghost predicate Synced(net: Net, managed: Managed, m: ExtrasMap, d: Driver, ifaces: seq<Interface>,
                         order: seq<string>, prev: seq<LinkConfig>, next: seq<LinkConfig>, s: HostState,
                         s': HostState) {
    && (forall r :: s'.rules[r] == SyncCopies(net, managed, d, ifaces, order, m, prev, next, r, s.rules[r]))
    && (forall k :: s'.entries[k] == SyncEntries(managed, d, ifaces, order, m, k, s.entries[k]))
  }

  /** Rules, entries and devices of the host at one moment. */
  datatype HostState = HostState(rules: multiset<Rule>, entries: multiset<Argv>, devices: map<string, Device>)

  /** A whole sync, whichever engine drives it and however its turn came out. */
  ghost predicate HostSynced(net: Net, managed: Managed, managed': Managed, m: ExtrasMap, d: Driver,
                             ifaces: seq<Interface>, order: seq<string>, prev: seq<LinkConfig>,
                             next: seq<LinkConfig>, s: HostState, s': HostState) {
    && managed' == ByName(Driven(d, ifaces))
    && WgDevice.Enumerates(order, StaleNames(managed, Driven(d, ifaces)))
    && Synced(net, managed, m, d, ifaces, order, prev, next, s, s')
    && (DistinctNames(ifaces) ==> DevicesStepped(net, Driven(d, ifaces), s.devices, s'.devices))
    && DevicesLeft(managed, Driven(d, ifaces), s.devices, s'.devices)
  }

  /** What the kernel engine alone does to the host. */
  ghost predicate EngineApplied(net: Net, managed: Managed, managed': Managed, ifaces: seq<Interface>,
                                order: seq<string>, s: HostState, s': HostState) {
    && managed' == ByName(ifaces)
    && WgDevice.Enumerates(order, StaleNames(managed, ifaces))
    && RulesMoved(net, managed, ifaces, order, s.rules, s'.rules)
    && EntriesMoved(managed, ifaces, order, s.entries, s'.entries)
    && (DistinctNames(ifaces) ==> DevicesStepped(net, ifaces, s.devices, s'.devices))
    && DevicesLeft(managed, ifaces, s.devices, s'.devices)
  }

  /** How the engine's turn went: in which order an engine of another name tore its interfaces down, what the host
      was like when the engine of the response started, and in which order that one removed interfaces. */
  datatype EngineTrace = EngineTrace(torn: seq<string>, between: HostState, order: seq<string>)

  ghost predicate LinkRulesMoved(prev: seq<LinkConfig>, next: seq<LinkConfig>, before: multiset<Rule>,
                                 after: multiset<Rule>) {
    forall r :: after[r] == Overlay.CopiesAfter(prev, next, r, before[r])
  }

  /** The passes between the engine and the second overlay pass. */
  ghost predicate Passed(net: Net, m: ExtrasMap, ifaces: seq<Interface>, prev: seq<LinkConfig>, next: seq<LinkConfig>,
                         rules: multiset<Rule>, rules': multiset<Rule>) {
    forall r :: rules'[r] ==
      Fold(Fold(Overlay.CopiesAfter(prev, next, r, rules[r]), NatEnsureTouches(net, ifaces, r)),
           ExtrasRuleTouches(m, ifaces, r))
  }

  lemma PassedBy(net: Net, m: ExtrasMap, ifaces: seq<Interface>, prev: seq<LinkConfig>, next: seq<LinkConfig>,
                 r1: multiset<Rule>, r2: multiset<Rule>, r3: multiset<Rule>, r4: multiset<Rule>)
    requires LinkRulesMoved(prev, next, r1, r2) && NatEnsured(net, ifaces, r2, r3) && ExtrasRules(m, ifaces, r3, r4)
    ensures Passed(net, m, ifaces, prev, next, r1, r4)
  {
    hide Fold, Overlay.CopiesAfter, NatEnsureTouches, ExtrasRuleTouches;
  }

  /** Applying the kernel engine to nothing when it manages nothing. */
  lemma NothingApplied(net: Net, s: HostState)
    ensures EngineApplied(net, map[], map[], [], [], s, s)
  {
    hide RulesMoved, EntriesMoved;
    NothingMoved(net, map[], s.rules, s.entries);
  }

  lemma NothingManaged(net: Net, managed: Managed, managed': Managed, order: seq<string>,
                       s: HostState, s': HostState)
    requires EngineApplied(net, managed, managed', [], order, s, s')
    ensures managed' == map[]
  {
    hide RulesMoved, EntriesMoved, DevicesStepped, DevicesLeft, StaleNames;
  }

  /** The passes of one sync, one after the other. */
  lemma SyncedBy(net: Net, managed: Managed, managed': Managed, m: ExtrasMap, d: Driver, ifaces: seq<Interface>,
                 order: seq<string>, prev: seq<LinkConfig>, next: seq<LinkConfig>,
                 s: HostState, applied: HostState, passed: HostState, s': HostState)
    requires EngineApplied(net, managed, managed', Driven(d, ifaces), order, s, applied)
    requires Passed(net, m, ifaces, prev, next, applied.rules, passed.rules)
    requires ExtrasEntries(m, ifaces, applied.entries, passed.entries)
    requires if d.Succeeds() then LinkRulesMoved(prev, next, passed.rules, s'.rules) else s'.rules == passed.rules
    requires s'.entries == passed.entries && s'.devices == passed.devices == applied.devices
    ensures HostSynced(net, managed, managed', m, d, ifaces, order, prev, next, s, s')
  {
    hide Fold, ApplyTouches, ApplyEntryTouches, Overlay.CopiesAfter, NatEnsureTouches, ExtrasRuleTouches,
         ExtrasEntryTouches,
         DevicesStepped, DevicesLeft, ByName, StaleNames, WgDevice.Enumerates;
    if DistinctNames(ifaces) { assert DistinctNames(Driven(d, ifaces)); }
  }

  /** What the agent remembers between two ticks, except for the engine's own memory. */
  datatype Mind = Mind(engine: Option<string>, known: bool, revision: nat, desired: seq<Interface>,
                       vxlan: seq<LinkConfig>, extras: ExtrasMap)

  const BLANK := Mind(None, false, 0, [], [], map[])

  /** The engine a response is applied with; `healthy` is how sing-box would do. */
  function DriverOf(resp: SyncResponse, healthy: bool): Driver {
    if IsKernel(EngineName(resp.engine)) then InKernel else InSingBox(healthy)
  }

  predicate EngineSucceeds(resp: SyncResponse, healthy: bool) { DriverOf(resp, healthy).Succeeds() }

  /** Taking in a fetched response: revision and desired state are recorded together, and only when the
      engine succeeded; overlay links and custom entries are recorded in any case. */
  function Absorb(m: Mind, resp: SyncResponse, healthy: bool): Mind {
    var ifaces := Interfaces(resp.interfaces);
    var rest := m.(engine := Some(EngineName(resp.engine)), vxlan := OverlayConfigs(resp.interfaces), extras :=
                   ExtrasAfter(m.extras, ifaces));
    if EngineSucceeds(resp, healthy) then rest.(known := true, revision := resp.revision, desired := ifaces) else rest
  }

  // ---- what a response means for the memory -----------------------------------------------------

  /** Any engine but sing-box is the kernel one, and it never fails. */
  predicate ForKernel(resp: SyncResponse) { resp.engine != "singbox" }

  /** The record holds the interface of every entry of the response, in order. */
  ghost predicate Holds(desired: seq<Interface>, resp: SyncResponse) {
    |desired| == |resp.interfaces| && forall i | 0 <= i < |desired| :: desired[i] == resp.interfaces[i].iface
  }

  ghost predicate NamesApart(resp: SyncResponse) {
    forall i, j | 0 <= i < j < |resp.interfaces| :: resp.interfaces[i].iface.name != resp.interfaces[j].iface.name
  }

  /** Some entry of the response has this interface. */
  ghost predicate Sent(resp: SyncResponse, iface: Interface) {
    exists i | 0 <= i < |resp.interfaces| :: resp.interfaces[i].iface == iface
  }

  /** What a response leaves recorded: all of it with the kernel engine or when sing-box started, and otherwise
      what was recorded before. */
  lemma RecordMeans(m: Mind, resp: SyncResponse, healthy: bool)
    ensures var r := Absorb(m, resp, healthy);
            && r.engine == Some(if resp.engine == "" then "kernel" else resp.engine)
            && (ForKernel(resp) || healthy ==> r.known && r.revision == resp.revision && Holds(r.desired, resp))
            && (!ForKernel(resp) && !healthy ==>
                  r.known == m.known && r.revision == m.revision && r.desired == m.desired)
            && (NamesApart(resp) ==> forall iface | Sent(resp, iface) ::
                  ExtrasOf(r.extras, iface.name) == iface.extras)
  {
    hide OverlayConfigs, ExtrasAfter;
    var ifaces := Interfaces(resp.interfaces);
    if NamesApart(resp) {
      forall iface | Sent(resp, iface) ensures ExtrasOf(ExtrasAfter(m.extras, ifaces), iface.name) == iface.extras {
        var i :| 0 <= i < |resp.interfaces| && resp.interfaces[i].iface == iface;
        assert ifaces[i] == iface && iface in ifaces;
        ExtrasAfterGives(m.extras, ifaces, iface.name);
      }
    }
  }

  lemma SentIff(resp: SyncResponse, iface: Interface)
    ensures Sent(resp, iface) <==> iface in Interfaces(resp.interfaces)
    ensures NamesApart(resp) <==> DistinctNames(Interfaces(resp.interfaces))
  {
    var ifaces := Interfaces(resp.interfaces);
    if Sent(resp, iface) {
      var i :| 0 <= i < |resp.interfaces| && resp.interfaces[i].iface == iface;
      assert ifaces[i] == iface;
    }
    forall i | 0 <= i < |ifaces| ensures ifaces[i] == resp.interfaces[i].iface { }
    if NamesApart(resp) {
      forall i, j | 0 <= i < j < |ifaces| ensures ifaces[i].name != ifaces[j].name {
        assert resp.interfaces[i].iface.name != resp.interfaces[j].iface.name;
      }
    }
    if DistinctNames(ifaces) {
      forall i, j | 0 <= i < j < |resp.interfaces|
        ensures resp.interfaces[i].iface.name != resp.interfaces[j].iface.name {
        assert ifaces[i].name != ifaces[j].name;
      }
    }
  }

  lemma DriverMeans(resp: SyncResponse, healthy: bool)
    ensures DriverOf(resp, healthy).InKernel? <==> ForKernel(resp)
    ensures EngineSucceeds(resp, healthy) <==> ForKernel(resp) || healthy
  {
  }

  /** The kernel engine manages the entries of the response, each under its name, and nothing else. */
  ghost predicate ManagesExactly(managed: Managed, resp: SyncResponse) {
    && (forall n :: n in managed <==> exists i | 0 <= i < |resp.interfaces| :: resp.interfaces[i].iface.name == n)
    && forall iface | Sent(resp, iface) :: iface.name in managed && managed[iface.name] == iface
  }

  lemma ManagedMeans(resp: SyncResponse, healthy: bool)
    requires NamesApart(resp)
    ensures var managed := ByName(Driven(DriverOf(resp, healthy), Interfaces(resp.interfaces)));
            if ForKernel(resp) then ManagesExactly(managed, resp) else managed == map[]
  {
    DriverMeans(resp, healthy);
    var ifaces := Interfaces(resp.interfaces);
    SentIff(resp, NO_INTERFACE);
    if ForKernel(resp) {
      var managed := ByName(ifaces);
      forall iface | Sent(resp, iface) ensures iface.name in managed && managed[iface.name] == iface {
        var i :| 0 <= i < |resp.interfaces| && resp.interfaces[i].iface == iface;
        assert ifaces[i] == iface;
        ByNameDistinct(ifaces, i);
      }
      forall n ensures n in managed <==> exists i | 0 <= i < |resp.interfaces| :: resp.interfaces[i].iface.name == n {
        if i :| 0 <= i < |resp.interfaces| && resp.interfaces[i].iface.name == n { assert ifaces[i].name == n; }
        if n in managed {
          var i :| 0 <= i < |ifaces| && ifaces[i].name == n;
          assert resp.interfaces[i].iface.name == n;
        }
      }
    }
  }

  /** Every entry of the response has its device. */
  ghost predicate DevicesThere(devices: map<string, Device>, resp: SyncResponse) {
    forall iface | Sent(resp, iface) :: iface.name in devices
  }

  lemma DevicesMean(net: Net, resp: SyncResponse, before: map<string, Device>, after: map<string, Device>)
    requires DevicesStepped(net, Interfaces(resp.interfaces), before, after)
    ensures DevicesThere(after, resp)
  {
    hide WgDevice.DeviceStep;
    var ifaces := Interfaces(resp.interfaces);
    forall iface | Sent(resp, iface) ensures iface.name in after {
      var i :| 0 <= i < |resp.interfaces| && resp.interfaces[i].iface == iface;
      assert ifaces[i] == iface && DeviceStepped(net, ifaces[i], before, after);
    }
  }

  /** What a sync leaves in memory, and which devices are there, read off the entries of the response. */
  lemma SyncRemembers(net: Net, resp: SyncResponse, healthy: bool, managed: Managed, managed': Managed, m: ExtrasMap,
                      order: seq<string>, prev: seq<LinkConfig>, next: seq<LinkConfig>, s: HostState, s': HostState)
    requires NamesApart(resp)
    requires HostSynced(net, managed, managed', m, DriverOf(resp, healthy), Interfaces(resp.interfaces), order, prev,
                        next, s, s')
    ensures if ForKernel(resp) then ManagesExactly(managed', resp) && DevicesThere(s'.devices, resp)
            else managed' == map[]
  {
    hide ManagesExactly, DevicesThere, Synced, ByName, DistinctNames, DevicesStepped, DevicesLeft, NamesApart,
         Interfaces;
    ManagedMeans(resp, healthy);
    SentIff(resp, NO_INTERFACE);
    DriverMeans(resp, healthy);
    if ForKernel(resp) { DevicesMean(net, resp, s.devices, s'.devices); }
  }

  /** Whether a heartbeat that reports this revision leads to a sync. */
  predicate Due(m: Mind, force: bool, reported: nat) { force || !m.known || reported != m.revision }

  predicate Fetches(m: Mind, force: bool, reported: Option<nat>, resp: Option<SyncResponse>) {
    reported.Some? && Due(m, force, reported.value) && resp.Some?
  }

  /** What one heartbeat does to the memory. */
  function Beat(m: Mind, force: bool, reported: Option<nat>, resp: Option<SyncResponse>, healthy: bool): Mind {
    if Fetches(m, force, reported, resp) then Absorb(m, resp.value, healthy) else m
  }

  class Agent {
    const h: Kernel
    const net: Net
    const kernel: Engine

    /** The running engine: none yet, the kernel engine, or sing-box. */
    var engine: Option<string>
    var revKnown: bool
    var revision: nat
    /** Last applied desired state, for the watchdog. */
    var desired: seq<Interface>
    /** Overlay links handed to the last overlay pass. */
    var vxlan: seq<LinkConfig>
    /** Custom entries applied per interface. */
    var extras: ExtrasMap

    constructor (h: Kernel, net: Net, kernel: Engine)
      requires kernel.managed == map[]
      ensures this.h == h && this.net == net && this.kernel == kernel
      ensures Thoughts() == BLANK
    {
      this.h, this.net, this.kernel := h, net, kernel;
      engine, revKnown, revision, desired, vxlan, extras := None, false, 0, [], [], map[];
    }

    ghost function Thoughts(): Mind
      reads this
    {
      Mind(engine, revKnown, revision, desired, vxlan, extras)
    }

    ghost function State(): HostState
      reads h
    {
      HostState(h.rules, h.entries, h.devices)
    }

    ghost function Wires(): Overlay.Wires
      reads h
    {
      Overlay.Wires(h.links, h.routes)
    }

    /** ensureNAT: installs again whatever an interface asks for. */
    method EnsureNat(ifaces: seq<Interface>)
      modifies h`rules
      ensures NatEnsured(net, ifaces, old(h.rules), h.rules)
    {
      hide Owns, NatEnabled, NatEnsured;
      NothingVisited(net, map[], h.rules, multiset{});
      assert ifaces[..0] == [];
      for i := 0 to |ifaces|
        invariant NatEnsured(net, ifaces[..i], old(h.rules), h.rules)
      {
        ghost var mid := h.rules;
        if NatEnabled(ifaces[i]) {
          var _ := SetupNat(h, net, ifaces[i]);
        }
        NatEnsuredPush(net, ifaces, i, old(h.rules), mid, h.rules);
      }
      assert ifaces[..|ifaces|] == ifaces;
    }

    /** The loop body of ensureExtras. */
    method VisitExtras(iface: Interface)
      modifies this`extras, h`rules, h`entries, h`routes, h`disruptions
      ensures extras == ExtrasVisit(old(extras), iface)
      ensures ExtrasVisited(old(extras), iface, old(h.rules), old(h.entries), h.rules, h.entries)
      ensures h.routes == ExtrasReconcile.RoutesAfter(old(h.routes), ExtrasOf(old(extras), iface.name).routes,
                                                      iface.extras.routes)
    {
      hide ExtrasReconcile.NatLineTouch, ExtrasReconcile.RuleTouch, ExtrasReconcile.RoutesAfter;
      var prev := if iface.name in extras then extras[iface.name] else NO_EXTRAS;
      if prev.IsZero() && iface.extras.IsZero() {
        SkippedExtras(prev, iface.extras, h.routes);
        return;
      }
      ExtrasReconcile.Reconcile(h, prev, iface.extras);
      extras := extras[iface.name := iface.extras];
    }

    /** ensureExtras: converges the custom entries of every interface of the configuration. */
    method EnsureExtras(ifaces: seq<Interface>)
      modifies this`extras, h`rules, h`entries, h`routes, h`disruptions
      ensures extras == ExtrasAfter(old(extras), ifaces)
      ensures ExtrasRules(old(extras), ifaces, old(h.rules), h.rules)
      ensures ExtrasEntries(old(extras), ifaces, old(h.entries), h.entries)
      ensures h.routes == ExtrasRoutes(old(h.routes), old(extras), ifaces)
    {
      hide ExtrasRules, ExtrasEntries, ExtrasVisit, ExtrasVisited, ExtrasReconcile.RoutesAfter;
      NothingVisited(net, extras, h.rules, h.entries);
      assert ifaces[..0] == [];
      for i := 0 to |ifaces|
        invariant extras == ExtrasAfter(old(extras), ifaces[..i])
        invariant ExtrasRules(old(extras), ifaces[..i], old(h.rules), h.rules)
        invariant ExtrasEntries(old(extras), ifaces[..i], old(h.entries), h.entries)
        invariant h.routes == ExtrasRoutes(old(h.routes), old(extras), ifaces[..i])
      {
        assert ifaces[..i + 1][..i] == ifaces[..i];
        ghost var rules, entries := h.rules, h.entries;
        VisitExtras(ifaces[i]);
        ExtrasPush(old(extras), ifaces, i, old(h.rules), old(h.entries), rules, entries, h.rules, h.entries);
      }
      assert ifaces[..|ifaces|] == ifaces;
    }

    /** The watchdog's policy half for one interface. */
    method TickPolicy(iface: Interface, p: Probes)
      modifies h`rules, h`entries, h`disruptions
      ensures forall r :: h.rules[r] == Step(old(h.rules)[r], Touch(0, r in RulesOf(iface.policyRoutes)))
      ensures NeverOverclaims(p.policy, iface.policyRoutes) ==>
                forall k :: h.entries[k] == Step(old(h.entries)[k], Touch(0, k in Keys(iface.policyRoutes)))
      ensures Accurate(p.policy, iface.policyRoutes) ==> h.disruptions == old(h.disruptions)
    {
      hide RulesOf, Keys, NeverOverclaims, Accurate;
      if iface.policyRoutes != "" {
        EnsurePolicyRoutes(h, iface.policyRoutes, p.policy);
      } else {
        EmptyTextHasNoLines();
      }
    }

    /** The watchdog's custom half for one interface. */
    method TickExtras(iface: Interface, p: Probes)
      modifies h`rules, h`entries, h`routes, h`disruptions
      ensures forall r :: h.rules[r] == Step(old(h.rules)[r], Touch(0, ListsRule(iface.extras, r)))
      ensures ExtrasReconcile.RuleProbeExact(p.rule) ==>
                forall k :: h.entries[k] == Step(old(h.entries)[k], Touch(0, ListsEntry(iface.extras, k)))
      ensures h.routes == ExtrasReconcile.RestoreRoutes(old(h.routes), ExtrasReconcile.RouteList(iface.extras.routes),
                                                        p.route)
      ensures h.disruptions == old(h.disruptions)
              + ExtrasReconcile.RestoreOverwrites(old(h.routes), ExtrasReconcile.RouteList(iface.extras.routes),
                                                  p.route)
    {
      hide ExtrasReconcile.RuleProbeExact, ExtrasReconcile.NatList, ExtrasReconcile.RuleList,
           ExtrasReconcile.RouteProbeSound, ExtrasReconcile.RouteList;
      ExtrasReconcile.NothingToRestore(h.routes, p.route);
      if !iface.extras.IsZero() {
        ExtrasReconcile.Ensure(h, iface.extras, p.route, p.rule);
      } else {
        EmptyLists();
      }
    }

    method TickInterface(iface: Interface, p: Probes)
      modifies h`rules, h`entries, h`routes, h`disruptions
      ensures Ticked([iface], old(h.rules), h.rules)
      ensures ProbesSound(p, [iface]) ==> TickedEntries([iface], old(h.entries), h.entries)
      ensures h.routes == ExtrasReconcile.RestoreRoutes(old(h.routes), ExtrasReconcile.RouteList(iface.extras.routes),
                                                        p.route)
      ensures ProbesExact(p, [iface]) ==>
                h.disruptions == old(h.disruptions)
                + ExtrasReconcile.RestoreOverwrites(old(h.routes), ExtrasReconcile.RouteList(iface.extras.routes),
                                                    p.route)
    {
      hide RulesOf, Keys, NeverOverclaims, Accurate, ExtrasReconcile.RuleProbeExact, ExtrasReconcile.RouteProbeSound,
           ListsRule, ListsEntry, TickTouches, TickEntryTouches, Fold;
      TickPolicy(iface, p);
      TickExtras(iface, p);
      assert [iface][0] == iface;
      forall r { OneTick(iface, r, old(h.rules)[r]); }
      forall k { OneEntryTick(iface, k, old(h.entries)[k]); }
    }

    /** policyWatchdogTick: puts back, interface by interface, what went missing. */
    method WatchdogTick(p: Probes)
      modifies h`rules, h`entries, h`routes, h`disruptions
      ensures Ticked(desired, old(h.rules), h.rules)
      ensures ProbesSound(p, desired) ==> TickedEntries(desired, old(h.entries), h.entries)
      ensures h.routes == TickRoutes(old(h.routes), desired, p.route)
      ensures ProbesExact(p, desired) ==> h.disruptions == old(h.disruptions) + TickOverwrites(old(h.routes), desired,
              p.route)
    {
      hide *;
      NothingVisited(net, map[], h.rules, h.entries);
      assert desired[..0] == [] && TickRoutes(h.routes, [], p.route) == h.routes
          && TickOverwrites(h.routes, [], p.route) == 0 by {
        NoTickRoutes(h.routes, p.route);
      }
      for i := 0 to |desired|
        invariant Ticked(desired[..i], old(h.rules), h.rules)
        invariant ProbesSound(p, desired) ==> TickedEntries(desired[..i], old(h.entries), h.entries)
        invariant h.routes == TickRoutes(old(h.routes), desired[..i], p.route)
        invariant ProbesExact(p, desired) ==> h.disruptions == old(h.disruptions) + TickOverwrites(old(h.routes),
                  desired[..i], p.route)
      {
        ghost var rules, entries := h.rules, h.entries;
        ProbesAt(p, desired, i);
        TickRoutesPush(old(h.routes), desired, i, p.route);
        TickInterface(desired[i], p);
        TickPush(desired, i, old(h.rules), rules, h.rules);
        if ProbesSound(p, desired) {
          TickEntriesPush(desired, i, old(h.entries), entries, h.entries);
        }
      }
      assert desired[..|desired|] == desired;
    }

    // ---- one sync -------------------------------------------------------------------------------

    ghost predicate OnKernel()
      reads this
    {
      engine.Some? && IsKernel(engine.value)
    }

    /** Another engine than the kernel one leaves the kernel engine's memory empty. */
    ghost predicate Valid()
      reads this, kernel
    {
      !OnKernel() ==> kernel.managed == map[]
    }

    /** ensureEngine: on a switch the old engine tears its interfaces down, and the new one starts with an
        empty memory. */
    method EnsureEngine(name: string) returns (ghost order: seq<string>)
      requires Valid()
      modifies this`engine, kernel, h`rules, h`entries, h`devices, h`disruptions
      ensures Valid() && engine == Some(EngineName(name))
      ensures old(OnKernel()) && old(engine) != engine ==>
                EngineApplied(net, old(kernel.managed), kernel.managed, [], order, old(State()), State())
      ensures !old(OnKernel()) || old(engine) == engine ==>
                order == [] && kernel.managed == old(kernel.managed) && State() == old(State())
    {
      hide RulesMoved, EntriesMoved, DevicesStepped, DevicesLeft;
      var wanted := EngineName(name);
      order := [];
      if engine.Some? && wanted == engine.value { return; }
      if engine.Some? && IsKernel(engine.value) {
        order := kernel.Apply(h, net, []);
      }
      engine := Some(wanted);
    }

    /** The engine's turn. `healthy` is the outcome of an engine other than the kernel one. */
    method ApplyEngine(ifaces: seq<Interface>, healthy: bool) returns (ok: bool, ghost order: seq<string>)
      requires engine.Some?
      modifies kernel, h`rules, h`entries, h`devices, h`disruptions
      ensures engine == old(engine)
      ensures ok <==> OnKernel() || healthy
      ensures OnKernel() ==>
                EngineApplied(net, old(kernel.managed), kernel.managed, ifaces, order, old(State()), State())
      ensures !OnKernel() ==> kernel.managed == old(kernel.managed) && State() == old(State())
    {
      hide RulesMoved, EntriesMoved, DevicesStepped, DevicesLeft;
      if IsKernel(engine.value) {
        order := kernel.Apply(h, net, ifaces);
        return true, order;
      }
      return healthy, [];
    }

    /** The response names the kernel engine differently than before: it is torn down and built again. */
    ghost predicate Renames(resp: SyncResponse)
      reads this
    {
      OnKernel() && IsKernel(EngineName(resp.engine)) && engine != Some(EngineName(resp.engine))
    }

    /** What the engine of the response starts with: the memory of the one before it if that is the same. */
    ghost function Inherited(resp: SyncResponse): Managed
      reads this, kernel
    {
      if Renames(resp) then map[] else kernel.managed
    }

    /** A kernel engine of another name tore down everything it managed, before the new one started. */
    twostate predicate TornDown(resp: SyncResponse, turn: EngineTrace)
      reads this, kernel, h
    {
      if old(Renames(resp)) then
        EngineApplied(net, old(kernel.managed), map[], [], turn.torn, old(State()), turn.between)
      else turn.between == old(State())
    }

    /** The engine's part of a sync. */
    method EngineTurn(resp: SyncResponse, ifaces: seq<Interface>, healthy: bool)
      returns (ok: bool, ghost turn: EngineTrace)
      requires Valid()
      modifies this`engine, kernel, h`rules, h`entries, h`devices, h`disruptions
      ensures Valid() && engine == Some(EngineName(resp.engine))
      ensures ok <==> EngineSucceeds(resp, healthy)
      ensures TornDown(resp, turn)
      ensures EngineApplied(net, old(Inherited(resp)), kernel.managed, Driven(DriverOf(resp, healthy), ifaces),
                            turn.order, turn.between, State())
      ensures Wires() == old(Wires())
    {
      hide EngineApplied;
      NothingApplied(net, State());
      ghost var was := State();
      ghost var renames := Renames(resp);
      ghost var torn := EnsureEngine(resp.engine);
      ghost var mid := State();
      if renames { NothingManaged(net, old(kernel.managed), kernel.managed, torn, was, mid); }
      ghost var visited;
      ok, visited := ApplyEngine(ifaces, healthy);
      turn := if IsKernel(EngineName(resp.engine)) then EngineTrace(torn, if renames then mid else was, visited)
              else EngineTrace([], was, torn);
    }

    /** One overlay pass. */
    method OverlayPass(prev: seq<LinkConfig>, next: seq<LinkConfig>)
      requires Overlay.PlainNames(next)
      modifies h`rules, h`routes, h`links, h`disruptions
      ensures LinkRulesMoved(prev, next, old(State()).rules, State().rules)
      ensures State() == old(State()).(rules := State().rules)
      ensures Wires() == Overlay.Reconciled(old(Wires()), h.view, prev, next)
    {
      hide Overlay.Reconciled, Overlay.CopiesAfter, Overlay.NothingToRemove, Overlay.PlainNames;
      Overlay.Reconcile(h, prev, next);
    }

    /** The overlay links, NAT and the custom entries: what a sync converges whatever the engine did. */
    method ConvergeRest(ifaces: seq<Interface>, prev: seq<LinkConfig>, next: seq<LinkConfig>)
      requires Overlay.PlainNames(next)
      modifies this`vxlan, this`extras, h`rules, h`entries, h`routes, h`links, h`disruptions
      ensures vxlan == next && extras == ExtrasAfter(old(extras), ifaces)
      ensures Passed(net, old(extras), ifaces, prev, next, old(State()).rules, State().rules)
      ensures ExtrasEntries(old(extras), ifaces, old(State()).entries, State().entries)
      ensures State().devices == old(State()).devices
      ensures Wires() == SyncWires(old(Wires()), h.view, old(extras), ifaces, prev, next, false)
    {
      hide NatEnsured, ExtrasRules, ExtrasEntries, ExtrasAfter, Passed, ExtrasRoutes, LinkRulesMoved,
           Overlay.Reconciled, Overlay.PlainNames;
      vxlan := next;
      ghost var r1 := h.rules;
      OverlayPass(prev, next);
      ghost var r2 := h.rules;
      EnsureNat(ifaces);
      ghost var r3 := h.rules;
      EnsureExtras(ifaces);
      PassedBy(net, old(extras), ifaces, prev, next, r1, r2, r3, h.rules);
    }

    /** The memory holds the response, entry by entry: the record unless sing-box failed, and what the kernel engine
        manages; and with that engine every entry has its device. */
    ghost predicate Took(resp: SyncResponse, healthy: bool)
      reads this, kernel, h
    {
      && engine == Some(if resp.engine == "" then "kernel" else resp.engine)
      && (ForKernel(resp) || healthy ==> revKnown && revision == resp.revision && Holds(desired, resp))
      && (NamesApart(resp) ==>
            if ForKernel(resp) then ManagesExactly(kernel.managed, resp) && DevicesThere(h.devices, resp)
            else kernel.managed == map[])
    }

    lemma StateDevices()
      ensures State().devices == h.devices
    {
    }

    /** One sync with a fetched response. The recorded revision and state change together or not at
        all, while the overlay links, NAT and custom entries are converged even when the engine
        failed. */
    method SyncWith(resp: SyncResponse, healthy: bool) returns (ghost turn: EngineTrace)
      requires Valid() && Overlay.PlainNames(OverlayConfigs(resp.interfaces))
      modifies this, kernel, h
      ensures Valid() && Thoughts() == Absorb(old(Thoughts()), resp, healthy)
      ensures Wires() == SyncWires(old(Wires()), h.view, old(extras), Interfaces(resp.interfaces), old(vxlan),
                                   OverlayConfigs(resp.interfaces), EngineSucceeds(resp, healthy))
      ensures Took(resp, healthy)
      ensures !ForKernel(resp) && !healthy ==>
                revKnown == old(revKnown) && revision == old(revision) && desired == old(desired)
      ensures TornDown(resp, turn)
      ensures HostSynced(net, old(Inherited(resp)), kernel.managed, old(extras), DriverOf(resp, healthy),
                         Interfaces(resp.interfaces), turn.order, old(vxlan), OverlayConfigs(resp.interfaces),
                         turn.between, State())
    {
      hide EngineApplied, Passed, ExtrasEntries, ExtrasAfter, HostSynced,
           Overlay.Reconciled, Overlay.PlainNames, LinkRulesMoved, ExtrasRoutes, OverlayConfigs, Interfaces,
           Wires, State, Holds, ManagesExactly, DevicesThere, NamesApart;
      var ifaces := ReadInterfaces(resp.interfaces);
      var prev := vxlan;
      var ok;
      ok, turn := EngineTurn(resp, ifaces, healthy);
      ghost var applied := State();
      var next := ReadOverlayConfigs(resp.interfaces);
      ConvergeRest(ifaces, prev, next);
      ghost var passed := State();
      if ok {
        revision, revKnown, desired := resp.revision, true, ifaces;
        OverlayPass(prev, next);
      }
      SyncedBy(net, old(Inherited(resp)), kernel.managed, old(extras), DriverOf(resp, healthy), ifaces, turn.order,
               prev, next, turn.between, applied, passed, State());
      RecordMeans(old(Thoughts()), resp, healthy);
      if NamesApart(resp) {
        StateDevices();
        SyncRemembers(net, resp, healthy, old(Inherited(resp)), kernel.managed, old(extras), turn.order, prev, next,
                      turn.between, State());
      }
    }

    /** Nothing the agent remembers, and nothing on the host, has changed. */
    twostate predicate Idle()
      reads this, kernel, h
    {
      Thoughts() == old(Thoughts()) && kernel.managed == old(kernel.managed) && State() == old(State())
          && Wires() == old(Wires())
    }

    /** The response was taken in, with everything a sync does to the host. */
    twostate predicate TookIn(resp: SyncResponse, healthy: bool, turn: EngineTrace)
      reads this, kernel, h
    {
      && Thoughts() == Absorb(old(Thoughts()), resp, healthy)
      && Wires() == SyncWires(old(Wires()), h.view, old(extras), Interfaces(resp.interfaces), old(vxlan),
                              OverlayConfigs(resp.interfaces), EngineSucceeds(resp, healthy))
      && Took(resp, healthy)
      && TornDown(resp, turn)
      && HostSynced(net, old(Inherited(resp)), kernel.managed, old(extras), DriverOf(resp, healthy),
                    Interfaces(resp.interfaces), turn.order, old(vxlan), OverlayConfigs(resp.interfaces), turn.between,
                    State())
    }

    /** sync: nothing happens when the fetch fails. */
    method Sync(resp: Option<SyncResponse>, healthy: bool) returns (ghost turn: EngineTrace)
      requires Valid() && (resp.Some? ==> Overlay.PlainNames(OverlayConfigs(resp.value.interfaces)))
      modifies this, kernel, h
      ensures Valid()
      ensures if resp.None? then Idle() else TookIn(resp.value, healthy, turn)
    {
      hide HostSynced, SyncWires, OverlayConfigs, Interfaces, Overlay.PlainNames, Absorb;
      turn := EngineTrace([], State(), []);
      if resp.None? { return; }
      turn := SyncWith(resp.value, healthy);
    }

    /** One heartbeat. `reported` is the revision the panel answered with, None when the call failed;
        `resp` is what a fetch would return right after it. */
    method HeartbeatTick(force: bool, reported: Option<nat>, resp: Option<SyncResponse>, healthy: bool)
      returns (ghost turn: EngineTrace)
      requires Valid() && (resp.Some? ==> Overlay.PlainNames(OverlayConfigs(resp.value.interfaces)))
      modifies this, kernel, h
      ensures Valid()
      ensures Thoughts() == Beat(old(Thoughts()), force, reported, resp, healthy)
      ensures if Fetches(old(Thoughts()), force, reported, resp) then TookIn(resp.value, healthy, turn) else Idle()
    {
      hide OverlayConfigs, Interfaces, Overlay.PlainNames, Absorb, HostSynced, SyncWires;
      turn := EngineTrace([], State(), []);
      if reported.None? { return; }
      var changed := force || !revKnown || reported.value != revision;
      if changed {
        turn := Sync(resp, healthy);
      }
    }
  }

  lemma ProbesAt(p: Probes, ifaces: seq<Interface>, i: nat)
    requires i < |ifaces|
    ensures ProbesSound(p, ifaces) ==> ProbesSound(p, [ifaces[i]])
    ensures ProbesExact(p, ifaces) ==> ProbesExact(p, [ifaces[i]])
  {
    hide NeverOverclaims, Accurate, ExtrasReconcile.RuleProbeExact, ExtrasReconcile.RouteProbeSound;
    assert forall iface | iface in [ifaces[i]] :: iface in ifaces;
  }
}
