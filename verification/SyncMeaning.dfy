/** What a response of the panel means for the host, read off its entries: the sync of node/controller.go from the
    panel's fields to the rules, entries, devices and links, without the functions in between. */
module SyncMeaning {
  import opened Text
  import opened Host
  import opened Types
  import opened Counts
  import opened KernelEngine
  import opened SyncEffects
  import opened Controller
  import opened RuleRuns
  import opened Meaning
  import opened CustomMeaning
  import opened LinkMeaning
  import opened PeerMeaning
  import EntryRuns
  import DeviceRuns
  import RuleTheorems
  import OverlayRuns
  import OverlayConvergence
  import OverlayFirewall
  import Overlay
  import ExtrasReconcile
  import WgDevice
  import Policy
  import Nat

  // ---- rules ------------------------------------------------------------------------------------

  /** The interface asks for r: as a NAT rule, by a policy line (the kernel engine's business), or by a custom NAT
      line. */
  ghost predicate AsksFor(net: Net, kernel: bool, i: Interface, r: Rule) {
    NatAsked(net, i, r) || (kernel && Opens(i.policyRoutes, r)) || AsksNat(i.extras.natLines, r)
  }

  /** A named tunnel of some entry makes this link. */
  ghost predicate LinkSent(resp: SyncResponse, c: LinkConfig) {
    exists panel, t :: panel in resp.interfaces && Carries(panel, t) && t.name != ""
                       && c == t.(tunnelMTU := panel.iface.mtu)
  }

  /** Some entry of the response, or some link of it that can be built, asks for r. */
  ghost predicate RuleAsked(net: Net, resp: SyncResponse, r: Rule) {
    || (exists iface :: Sent(resp, iface) && AsksFor(net, ForKernel(resp), iface, r))
    || (exists c :: LinkSent(resp, c) && NeedsRule(c, r))
  }

  lemma AsksForIff(net: Net, d: Driver, i: Interface, r: Rule)
    ensures AsksFor(net, d.InKernel?, i, r) <==> Asks(net, d, i, r)
  {
    hide NatAsked, Nat.Wants, Opens, Policy.RulesOf, AsksNat, ExtrasReconcile.Copies;
    NatAskedIff(net, i, r);
    OpensIff(i.policyRoutes, r);
    AsksNatIff(i.extras.natLines, r);
  }

  /** What a sync asks for is what the entries of the response ask for. */
  lemma AskedMeans(net: Net, resp: SyncResponse, e: Event, r: Rule)
    requires e.Sync? && e.ifaces == Interfaces(resp.interfaces) && (e.driver.InKernel? <==> ForKernel(resp))
    ensures AskedFor(net, e, r) <==> exists iface :: Sent(resp, iface) && AsksFor(net, ForKernel(resp), iface, r)
  {
    hide Asks, AsksFor, Sent, Interfaces, NamesApart;
    forall iface ensures Sent(resp, iface) <==> iface in e.ifaces { SentIff(resp, iface); }
    forall iface ensures AsksFor(net, ForKernel(resp), iface, r) <==> Asks(net, e.driver, iface, r) {
      AsksForIff(net, e.driver, iface, r);
    }
  }

  lemma LinkRulesMean(resp: SyncResponse, r: Rule)
    ensures (exists c :: LinkSent(resp, c) && NeedsRule(c, r)) <==> RuleNeeded(OverlayConfigs(resp.interfaces), r)
  {
    hide NeedsRule, OverlayConfigs, Carries;
    forall c ensures c in OverlayConfigs(resp.interfaces) <==> LinkSent(resp, c) {
      OverlayMembers(resp.interfaces, c);
    }
  }

  lemma FreshTouch(net: Net, d: Driver, iface: Interface, r: Rule, t: Touch)
    requires ByIface(net, START, d, iface, r, t)
    ensures t.drops == 0
  {
    hide Nat.Owns, Nat.NatEnabled, Policy.RulesOf;
    Policy.EmptyTextHasNoLines();
    EnabledIff(NO_INTERFACE);
    FreshPolicy(iface.policyRoutes, r);
    EmptyLists();
  }

  lemma FreshPolicy(text: string, r: Rule)
    ensures Policy.PolicyRuleTouch("", text, r).drops == 0
  {
    Policy.EmptyTextHasNoLines();
  }

  lemma AnyWants(c: nat, ts: seq<Touch>)
    requires forall t | t in ts :: t.drops == 0
    ensures Fold(c, ts) == if exists t :: t in ts && t.wants then Max(1, c) else c
  {
    assert forall i | 0 <= i < |ts| :: ts[i] in ts;
    OnlyAdding(c, ts);
  }

  /** The event of a first sync. */
  function FirstEvent(resp: SyncResponse, healthy: bool): Event {
    Sync(Interfaces(resp.interfaces), OverlayConfigs(resp.interfaces), [], DriverOf(resp, healthy))
  }

  lemma FirstIsProper(resp: SyncResponse, healthy: bool)
    requires NamesApart(resp)
    ensures Proper(START, FirstEvent(resp, healthy)) && DistinctNames(FirstEvent(resp, healthy).ifaces)
  {
    hide DistinctNames, ByName, Interfaces, OverlayConfigs;
    SentIff(resp, NO_INTERFACE);
  }

  lemma AskerTouches(net: Net, e: Event, r: Rule)
    requires e.Sync? && e.order == [] && DistinctNames(e.ifaces) && AskedFor(net, e, r)
    ensures exists t :: t in SyncTouches(net, START, e, r) && t.wants
  {
    hide Nat.Wants, Policy.RulesOf, SyncTouches, ListsRule, Nat.NatTouch, Policy.StaleRules;
    var iface :| iface in e.ifaces && Asks(net, e.driver, iface, r);
    var t := if Nat.Wants(net, iface, r) then Touch(0, true)
             else if ListsRule(iface.extras, r) then
               ExtrasReconcile.NatLineTouch(ExtrasOf(START.extras, iface.name).natLines, iface.extras.natLines, r)
             else Policy.PolicyRuleTouch(Lookup(START.managed, iface.name).policyRoutes, iface.policyRoutes, r);
    ListedWants(START, iface, r);
    assert ByIface(net, START, e.driver, iface, r, t);
    SyncTouchIn(net, START, e, r, t);
  }

  lemma ListedWants(m: Memory, iface: Interface, r: Rule)
    ensures ListsRule(iface.extras, r) ==>
              ExtrasReconcile.NatLineTouch(ExtrasOf(m.extras, iface.name).natLines, iface.extras.natLines, r).wants
  {
    hide ExtrasReconcile.Copies, ExtrasReconcile.NatList;
  }

  /** The first sync, one rule at a time: it is there if some entry or link of the response asks for it, and as the
      host had it otherwise. */
  lemma FirstRules(net: Net, resp: SyncResponse, healthy: bool, r: Rule, c: nat)
    requires NamesApart(resp) && c <= 1
    ensures CopiesAfterEvent(net, START, FirstEvent(resp, healthy), r, c) == if RuleAsked(net, resp, r) then 1 else c
  {
    hide AskedFor, AsksFor, Sent, LinkSent, NeedsRule, SyncTouches, Proper, CopiesAfterEvent, OverlayShape,
         OverlayConfigs, Interfaces, RuleNeeded, NamesApart, Overlay.CopiesAfter, ByIface, ByStale;
    var e := FirstEvent(resp, healthy);
    FirstIsProper(resp, healthy);
    DriverMeans(resp, healthy);
    AskedMeans(net, resp, e, r);
    LinkRulesMean(resp, r);
    if OverlayShape(r) {
      OverlayOnlyFirst(net, resp, e, r, c);
    } else {
      NoLinkRule(resp, r);
      SyncIsFold(net, START, e, r, c);
      var ts := SyncTouches(net, START, e, r);
      forall t | t in ts ensures t.drops == 0 && (t.wants ==> AskedFor(net, e, r)) {
        SyncTouchIn(net, START, e, r, t);
        var iface :| iface in e.ifaces && ByIface(net, START, e.driver, iface, r, t);
        FreshTouch(net, e.driver, iface, r, t);
        if t.wants { WantedByAsker(net, START, e, r, t); }
      }
      if AskedFor(net, e, r) { AskerTouches(net, e, r); }
      AnyWants(c, ts);
    }
  }

  lemma OverlayOnlyFirst(net: Net, resp: SyncResponse, e: Event, r: Rule, c: nat)
    requires e.Sync? && e.links == OverlayConfigs(resp.interfaces) && Proper(START, e) && OverlayShape(r) && c <= 1
    ensures CopiesAfterEvent(net, START, e, r, c) == if RuleNeeded(e.links, r) then 1 else c
    ensures !AskedFor(net, e, r)
  {
    hide Proper, CopiesAfterEvent, RuleNeeded, Overlay.CopiesAfter, Nat.Owns, Policy.RulesOf, ListsRule, OverlayShape;
    OverlayRuns.OverlayOnly(net, START, e, r, c);
    FirstPassRules(e.links, r, c);
    FirstPassRules(e.links, r, Overlay.CopiesAfter([], e.links, r, c));
    if AskedFor(net, e, r) {
      var iface :| iface in e.ifaces && Asks(net, e.driver, iface, r);
      OwnShapes(net, iface, r);
    }
  }

  lemma NoLinkRule(resp: SyncResponse, r: Rule)
    requires !OverlayShape(r)
    ensures !exists c :: LinkSent(resp, c) && NeedsRule(c, r)
  {
    hide LinkSent, LinkAsked;
  }

  /** After any sync, failed or not, a NAT rule that an entry of the response asks for is there, unless a custom line
      that spells it was just dropped. */
  lemma NatOfEntry(net: Net, m: Memory, e: Event, resp: SyncResponse, iface: Interface, r: Rule, c: nat)
    requires e.Sync? && e.ifaces == Interfaces(resp.interfaces) && Proper(m, e) && c <= 1 && !OverlayShape(r)
    requires Sent(resp, iface) && NatAsked(net, iface, r)
    ensures CopiesAfterEvent(net, m, e, r, c) == if RuleTheorems.CustomKeeps(m.extras, e.ifaces, r) then 1 else 0
  {
    hide NatAsked, Nat.Wants, Proper, CopiesAfterEvent, OverlayShape, RuleTheorems.CustomLeaves, Interfaces,
         NamesApart;
    SentIff(resp, iface);
    NatAskedIff(net, iface, r);
    RuleTheorems.NatPresentIff(net, m, e, r, c);
  }

  // ---- entries ----------------------------------------------------------------------------------

  ghost predicate EntryAsked(resp: SyncResponse, k: Argv) {
    exists iface :: Sent(resp, iface)
                    && ((ForKernel(resp) && Installs(iface.policyRoutes, k)) || AsksRule(iface.extras.rules, k))
  }

  lemma EntryAskedMeans(resp: SyncResponse, e: Event, k: Argv)
    requires e.Sync? && e.ifaces == Interfaces(resp.interfaces) && (e.driver.InKernel? <==> ForKernel(resp))
    ensures EntryRuns.EntryAskedFor(e, k) <==> EntryAsked(resp, k)
  {
    hide Sent, Interfaces, NamesApart, Installs, AsksRule, Policy.Keys, ExtrasReconcile.Copies, ForKernel;
    forall iface ensures Sent(resp, iface) <==> iface in e.ifaces { SentIff(resp, iface); }
    forall iface: Interface ensures Installs(iface.policyRoutes, k) <==> k in Policy.Keys(iface.policyRoutes)
      ensures AsksRule(iface.extras.rules, k) <==> ListsEntry(iface.extras, k) {
      InstallsIff(iface.policyRoutes, k);
      AsksRuleIff(iface.extras.rules, k);
    }
  }

  /** The first sync, one `ip` entry at a time. */
  lemma FirstEntries(resp: SyncResponse, healthy: bool, k: Argv, c: nat)
    requires NamesApart(resp) && c <= 1
    ensures EntryRuns.EntriesAfterEvent(START, FirstEvent(resp, healthy), k, c) == if EntryAsked(resp, k) then 1 else c
  {
    hide EntryAsked, EntryRuns.EntryAskedFor, Proper, EntryRuns.EntriesAfterEvent, Interfaces, OverlayConfigs,
         NamesApart, EntryRuns.EntryTouches;
    var e := FirstEvent(resp, healthy);
    FirstIsProper(resp, healthy);
    DriverMeans(resp, healthy);
    EntryAskedMeans(resp, e, k);
    if EntryRuns.EntryAskedFor(e, k) {
      FirstEntryThere(e, k, c);
    } else {
      EntryRuns.UnlistedOutcome(START, e, k, c);
      FirstDropsNothing(e, k);
    }
  }

  lemma FirstDropsNothing(e: Event, k: Argv)
    requires e.Sync? && e.order == []
    ensures !EntryRuns.EntryDropped(START, e, k)
  {
    hide Policy.PolicyLines, Policy.KeysExcept;
    Policy.EmptyTextHasNoLines();
    EmptyLists();
  }

  lemma FreshEntryTouch(d: Driver, iface: Interface, k: Argv, t: Touch)
    requires EntryRuns.FromIface(START, d, iface, k, t)
    ensures Harmless(t)
  {
    hide Policy.PolicyLines, Policy.Keys;
    Policy.EmptyTextHasNoLines();
    EmptyLists();
    FreshKeys(iface.policyRoutes, k);
  }

  lemma FreshKeys(text: string, k: Argv)
    ensures Policy.PolicyTouch("", text, k).drops == 0
  {
    Policy.EmptyTextHasNoLines();
  }

  lemma EntryAskerTouches(e: Event, k: Argv) returns (t: Touch)
    requires e.Sync? && e.order == [] && DistinctNames(e.ifaces) && EntryRuns.EntryAskedFor(e, k)
    ensures t in EntryRuns.EntryTouches(START, e, k) && t.wants
  {
    hide EntryRuns.EntryTouches, Policy.Keys, Policy.KeysExcept, ListsEntry, DistinctNames;
    var iface :| iface in e.ifaces && EntryRuns.AsksEntry(e.driver, iface, k);
    t := if ListsEntry(iface.extras, k) then ExtrasEntryTouch(START.extras, iface, k)
         else Policy.PolicyTouch(Lookup(START.managed, iface.name).policyRoutes, iface.policyRoutes, k);
    ListedEntryWants(iface, k);
    assert EntryRuns.FromIface(START, e.driver, iface, k, t);
    EntryRuns.EntryTouchIn(START, e, k, t);
  }

  lemma ListedEntryWants(iface: Interface, k: Argv)
    ensures ListsEntry(iface.extras, k) ==> ExtrasEntryTouch(START.extras, iface, k).wants
  {
    hide ExtrasReconcile.Copies, ExtrasReconcile.RuleList;
  }

  lemma FirstEntryThere(e: Event, k: Argv, c: nat)
    requires e.Sync? && e.order == [] && DistinctNames(e.ifaces) && c <= 1 && EntryRuns.EntryAskedFor(e, k)
    ensures EntryRuns.EntriesAfterEvent(START, e, k, c) == 1
  {
    hide EntryRuns.EntryAskedFor, EntryRuns.FromIface, DistinctNames, ApplyEntryTouches, ExtrasEntryTouches, Harmless;
    var ts := EntryRuns.EntryTouches(START, e, k);
    FoldConcat(c, ApplyEntryTouches(START.managed, Driven(e.driver, e.ifaces), e.order, k),
               ExtrasEntryTouches(START.extras, e.ifaces, k));
    forall t | t in ts ensures Harmless(t) {
      EntryRuns.EntryTouchIn(START, e, k, t);
      var iface :| iface in e.ifaces && EntryRuns.FromIface(START, e.driver, iface, k, t);
      FreshEntryTouch(e.driver, iface, k, t);
    }
    var t := EntryAskerTouches(e, k);
    FoldAtMostOne(c, ts);
    FoldKept(c, ts);
  }

  // ---- a tick -----------------------------------------------------------------------------------

  /** What a tick puts back: what the policy lines open and the custom NAT lines ask for. */
  lemma TickMeans(ifaces: seq<Interface>, r: Rule, c: nat)
    ensures Fold(c, TickTouches(ifaces, r))
            == if exists iface :: iface in ifaces && (Opens(iface.policyRoutes, r) || AsksNat(iface.extras.natLines, r))
               then Max(1, c) else c
  {
    hide TickTouches, Opens, Policy.RulesOf, AsksNat, ExtrasReconcile.Copies;
    forall iface: Interface ensures Opens(iface.policyRoutes, r) <==> r in Policy.RulesOf(iface.policyRoutes)
      ensures AsksNat(iface.extras.natLines, r) <==> ListsRule(iface.extras, r) {
      OpensIff(iface.policyRoutes, r);
      AsksNatIff(iface.extras.natLines, r);
    }
    TickGives(ifaces, r, c);
  }

  // ---- devices ----------------------------------------------------------------------------------

  /** The device of an entry the host had none for: its key, its port, its peers, and who owns each allowed IP. */
  ghost predicate DeviceAsSent(net: Net, iface: Interface, d: Device) {
    InterfaceReadable(net, iface) ==>
      && Some(d.privateKey) == net.parseKey(iface.privateKey) && d.port == iface.listenPort
      && (forall k :: k in d.peers <==> HasKey(net, iface, k))
      && (WellSpelled(net, iface) ==> forall c, k ::
            c in d.owner && d.owner[c] == k <==> LastToList(net, iface, c, k))
  }

  lemma NewDeviceMeans(net: Net, iface: Interface, r: Device)
    requires net.Valid() && WgDevice.DeviceStep(net, iface, WgDevice.NEW_DEVICE, r)
    ensures DeviceAsSent(net, iface, r)
  {
    hide WgDevice.DeviceStep, InterfaceReadable, HasKey, Writes, WellSpelled, LastToList;
    if InterfaceReadable(net, iface) {
      DeviceMeans(net, iface, WgDevice.NEW_DEVICE, r, "");
      forall k ensures k in r.peers <==> HasKey(net, iface, k) {
        DeviceMeans(net, iface, WgDevice.NEW_DEVICE, r, k);
      }
      if WellSpelled(net, iface) {
        forall c, k
          ensures c in r.owner && r.owner[c] == k <==> LastToList(net, iface, c, k) {
          OwnerMeans(net, iface, WgDevice.NEW_DEVICE, r, c, k);
        }
      }
    }
  }

  ghost predicate NewDevicesAsSent(net: Net, resp: SyncResponse, before: DeviceRuns.Devices,
                                   after: DeviceRuns.Devices) {
    forall iface | Sent(resp, iface) && iface.name !in before ::
      iface.name in after && DeviceAsSent(net, iface, after[iface.name])
  }

  lemma FirstDevices(net: Net, resp: SyncResponse, before: DeviceRuns.Devices, after: DeviceRuns.Devices)
    requires net.Valid() && DevicesStepped(net, Interfaces(resp.interfaces), before, after)
    ensures NewDevicesAsSent(net, resp, before, after)
  {
    hide WgDevice.DeviceStep, DeviceAsSent;
    var ifaces := Interfaces(resp.interfaces);
    forall iface | Sent(resp, iface) && iface.name !in before
      ensures iface.name in after && DeviceAsSent(net, iface, after[iface.name])
    {
      var i :| 0 <= i < |resp.interfaces| && resp.interfaces[i].iface == iface;
      assert ifaces[i] == iface && DeviceStepped(net, ifaces[i], before, after);
      NewDeviceMeans(net, iface, after[iface.name]);
    }
  }

  // ---- the first sync on the host ---------------------------------------------------------------

  ghost predicate LinksAsSent(resp: SyncResponse, before: Overlay.Links, after: Overlay.Links) {
    forall c | LinkSent(resp, c) && c.name !in before ::
      (c.name in after <==> LinkAsked(c)) && (LinkAsked(c) ==> LinkMade(after, c))
  }

  lemma FirstLinks(resp: SyncResponse, w: Overlay.Wires, src: LinkView, x: ExtrasMap, ok: bool)
    requires OverlayConvergence.DistinctLinks(OverlayConfigs(resp.interfaces))
    ensures LinksAsSent(resp, w.links, SyncWires(w, src, x, Interfaces(resp.interfaces), [],
                                                 OverlayConfigs(resp.interfaces), ok).links)
  {
    hide Interfaces, OverlayConfigs, SyncWires, LinkAsked, LinkMade, Carries;
    var next := OverlayConfigs(resp.interfaces);
    forall c | LinkSent(resp, c) && c.name !in w.links
      ensures var links := SyncWires(w, src, x, Interfaces(resp.interfaces), [], next, ok).links;
              (c.name in links <==> LinkAsked(c)) && (LinkAsked(c) ==> LinkMade(links, c))
    {
      OverlayMembers(resp.interfaces, c);
      LinkMeaning.SyncMeans(w, src, x, Interfaces(resp.interfaces), [], next, ok, c);
    }
  }

  lemma FirstHost(net: Net, resp: SyncResponse, healthy: bool, order: seq<string>, managed: Managed, s: HostState,
                  s': HostState)
    requires net.Valid() && NamesApart(resp)
    requires HostSynced(net, map[], managed, map[], DriverOf(resp, healthy), Interfaces(resp.interfaces), order, [],
                        OverlayConfigs(resp.interfaces), s, s')
    ensures forall r | s.rules[r] <= 1 :: s'.rules[r] == if RuleAsked(net, resp, r) then 1 else s.rules[r]
    ensures forall k | s.entries[k] <= 1 :: s'.entries[k] == if EntryAsked(resp, k) then 1 else s.entries[k]
    ensures ForKernel(resp) ==> NewDevicesAsSent(net, resp, s.devices, s'.devices)
  {
    hide RuleAsked, EntryAsked, NewDevicesAsSent, NamesApart, Interfaces, OverlayConfigs, SyncCopies, SyncEntries,
         DevicesStepped, DevicesLeft, ByName, DistinctNames;
    assert order == [] by { NothingStale(order, Driven(DriverOf(resp, healthy), Interfaces(resp.interfaces))); }
    forall r | s.rules[r] <= 1 ensures s'.rules[r] == if RuleAsked(net, resp, r) then 1 else s.rules[r] {
      FirstRules(net, resp, healthy, r, s.rules[r]);
    }
    forall k | s.entries[k] <= 1 ensures s'.entries[k] == if EntryAsked(resp, k) then 1 else s.entries[k] {
      FirstEntries(resp, healthy, k, s.entries[k]);
    }
    SentIff(resp, NO_INTERFACE);
    DriverMeans(resp, healthy);
    if ForKernel(resp) { FirstDevices(net, resp, s.devices, s'.devices); }
  }

  lemma NothingStale(order: seq<string>, ifaces: seq<Interface>)
    requires WgDevice.Enumerates(order, StaleNames(map[], ifaces))
    ensures order == []
  {
    SomeMember(order);
  }

  lemma SomeMember(s: seq<string>)
    ensures s == [] || exists n :: n in s
  {
    if s != [] { assert s[0] in s; }
  }

  /** The first sync of an agent, on whatever host it finds. Every rule and every entry that an entry of the response
      asks for is there, every other one is as it was; every tunnel that can be built is built; with the kernel
      engine every entry has its device. A failed engine costs neither NAT nor custom lines nor links. */
  method FirstSync(a: Agent, resp: SyncResponse, healthy: bool)
    requires a.Thoughts() == BLANK && a.kernel.managed == map[] && a.net.Valid()
    requires NamesApart(resp) && Overlay.PlainNames(OverlayConfigs(resp.interfaces))
             && OverlayConvergence.DistinctLinks(OverlayConfigs(resp.interfaces))
    modifies a, a.kernel, a.h
    ensures ForKernel(resp) || healthy ==> a.revision == resp.revision && Holds(a.desired, resp)
    ensures forall r | old(a.h.rules)[r] <= 1 ::
              a.h.rules[r] == if RuleAsked(a.net, resp, r) then 1 else old(a.h.rules)[r]
    ensures forall k | old(a.h.entries)[k] <= 1 ::
              a.h.entries[k] == if EntryAsked(resp, k) then 1 else old(a.h.entries)[k]
    ensures LinksAsSent(resp, old(a.h.links), a.h.links)
    ensures ForKernel(resp) ==>
              ManagesExactly(a.kernel.managed, resp) && NewDevicesAsSent(a.net, resp, old(a.h.devices), a.h.devices)
  {
    hide Holds, RuleAsked, EntryAsked, LinksAsSent, ManagesExactly, NewDevicesAsSent, DevicesThere, NamesApart,
         Interfaces, OverlayConfigs, SyncWires, SyncCopies, SyncEntries, DevicesStepped, DevicesLeft, Absorb,
         OverlayConvergence.DistinctLinks, Overlay.PlainNames;
    ghost var s, w := a.State(), a.Wires();
    ghost var turn := a.Sync(Some(resp), healthy);
    ghost var s' := a.State();
    FirstHost(a.net, resp, healthy, turn.order, a.kernel.managed, s, s');
    FirstLinks(resp, w, a.h.view, map[], EngineSucceeds(resp, healthy));
  }
}
