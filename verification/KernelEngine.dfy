/** engine/kernel.go: the engine that drives the kernel WireGuard module. */
module KernelEngine {
  import opened Host
  import opened Types
  import opened Counts
  import opened Nat
  import opened Policy
  import WgDevice

  type Managed = map<string, Interface>

  // ---- what one Apply does to a rule or an entry, as a list of touches --------------------------

  /** Desired interfaces, in order: each reconciles its NAT, then its policy routes. */
  ghost function IfaceTouches(net: Net, managed: Managed, ifaces: seq<Interface>, r: Rule): seq<Touch> {
    if ifaces == [] then [] else
      var iface := ifaces[|ifaces| - 1];
      var was := Lookup(managed, iface.name);
      IfaceTouches(net, managed, ifaces[..|ifaces| - 1], r)
      + [NatTouch(net, was, iface, r), PolicyRuleTouch(was.policyRoutes, iface.policyRoutes, r)]
  }

  /** Interfaces no longer desired, in some order: each loses its policy routes, then its NAT. */
  ghost function StaleTouches(net: Net, managed: Managed, order: seq<string>, r: Rule): seq<Touch> {
    if order == [] then [] else
      var was := Lookup(managed, order[|order| - 1]);
      StaleTouches(net, managed, order[..|order| - 1], r)
      + [RemoveRuleTouch(was.policyRoutes, r), TeardownTouch(net, was, r)]
  }

  function IfaceEntryTouches(managed: Managed, ifaces: seq<Interface>, k: Argv): seq<Touch> {
    if ifaces == [] then [] else
      var iface := ifaces[|ifaces| - 1];
      IfaceEntryTouches(managed, ifaces[..|ifaces| - 1], k)
      + [PolicyTouch(Lookup(managed, iface.name).policyRoutes, iface.policyRoutes, k)]
  }

  function StaleEntryTouches(managed: Managed, order: seq<string>, k: Argv): seq<Touch> {
    if order == [] then [] else
      StaleEntryTouches(managed, order[..|order| - 1], k)
      + [RemoveTouch(Lookup(managed, order[|order| - 1]).policyRoutes, k)]
  }

  ghost function ApplyTouches(net: Net, managed: Managed, ifaces: seq<Interface>, order: seq<string>,
                              r: Rule): seq<Touch> {
    IfaceTouches(net, managed, ifaces, r) + StaleTouches(net, managed, order, r)
  }

  function ApplyEntryTouches(managed: Managed, ifaces: seq<Interface>, order: seq<string>, k: Argv): seq<Touch> {
    IfaceEntryTouches(managed, ifaces, k) + StaleEntryTouches(managed, order, k)
  }

  /** The rules moved from one state to the other by exactly these touches. */
  ghost predicate RulesMoved(net: Net, managed: Managed, ifaces: seq<Interface>, order: seq<string>,
                             before: multiset<Rule>, after: multiset<Rule>) {
    forall r :: after[r] == Fold(before[r], ApplyTouches(net, managed, ifaces, order, r))
  }

  ghost predicate EntriesMoved(managed: Managed, ifaces: seq<Interface>, order: seq<string>,
                               before: multiset<Argv>, after: multiset<Argv>) {
    forall k :: after[k] == Fold(before[k], ApplyEntryTouches(managed, ifaces, order, k))
  }

  // One iteration of each loop.

  ghost predicate IfaceRules(net: Net, was: Interface, iface: Interface, before: multiset<Rule>,
                             after: multiset<Rule>) {
    forall r :: after[r] == Step(Step(before[r], NatTouch(net, was, iface, r)),
                                 PolicyRuleTouch(was.policyRoutes, iface.policyRoutes, r))
  }

  ghost predicate IfaceEntries(was: Interface, iface: Interface, before: multiset<Argv>, after: multiset<Argv>) {
    forall k :: after[k] == Step(before[k], PolicyTouch(was.policyRoutes, iface.policyRoutes, k))
  }

  ghost predicate RemovedRules(net: Net, was: Interface, before: multiset<Rule>, after: multiset<Rule>) {
    forall r :: after[r] == Step(Step(before[r], RemoveRuleTouch(was.policyRoutes, r)), TeardownTouch(net, was, r))
  }

  ghost predicate RemovedEntries(was: Interface, before: multiset<Argv>, after: multiset<Argv>) {
    forall k :: after[k] == Step(before[k], RemoveTouch(was.policyRoutes, k))
  }

  lemma FoldTwo(c: nat, ts: seq<Touch>, a: Touch, b: Touch)
    ensures Fold(c, ts + [a, b]) == Step(Step(Fold(c, ts), a), b)
  {
    assert ts + [a, b] == (ts + [a]) + [b];
    FoldPush(c, ts, a);
    FoldPush(c, ts + [a], b);
  }

  lemma NothingMoved(net: Net, managed: Managed, rules: multiset<Rule>, entries: multiset<Argv>)
    ensures RulesMoved(net, managed, [], [], rules, rules)
    ensures EntriesMoved(managed, [], [], entries, entries)
  {
  }

  // The same, for one rule or one entry.

  lemma RuleIfaceAt(net: Net, managed: Managed, ifaces: seq<Interface>, i: nat, r: Rule, c: nat)
    requires i < |ifaces|
    ensures var was := Lookup(managed, ifaces[i].name);
            Fold(c, ApplyTouches(net, managed, ifaces[..i + 1], [], r))
            == Step(Step(Fold(c, ApplyTouches(net, managed, ifaces[..i], [], r)), NatTouch(net, was, ifaces[i], r)),
                    PolicyRuleTouch(was.policyRoutes, ifaces[i].policyRoutes, r))
  {
    hide NatTouch, PolicyRuleTouch;
    assert ifaces[..i + 1][..i] == ifaces[..i];
    var was := Lookup(managed, ifaces[i].name);
    var ts := IfaceTouches(net, managed, ifaces[..i], r);
    var a, b := NatTouch(net, was, ifaces[i], r), PolicyRuleTouch(was.policyRoutes, ifaces[i].policyRoutes, r);
    FoldTwo(c, ts, a, b);
    assert ApplyTouches(net, managed, ifaces[..i], [], r) == ts;
    assert ApplyTouches(net, managed, ifaces[..i + 1], [], r) == ts + [a, b];
  }

  lemma EntryIfaceAt(managed: Managed, ifaces: seq<Interface>, i: nat, k: Argv, c: nat)
    requires i < |ifaces|
    ensures Fold(c, ApplyEntryTouches(managed, ifaces[..i + 1], [], k))
            == Step(Fold(c, ApplyEntryTouches(managed, ifaces[..i], [], k)),
                    PolicyTouch(Lookup(managed, ifaces[i].name).policyRoutes, ifaces[i].policyRoutes, k))
  {
    hide PolicyTouch;
    assert ifaces[..i + 1][..i] == ifaces[..i];
    var ts := IfaceEntryTouches(managed, ifaces[..i], k);
    var a := PolicyTouch(Lookup(managed, ifaces[i].name).policyRoutes, ifaces[i].policyRoutes, k);
    FoldPush(c, ts, a);
    assert ApplyEntryTouches(managed, ifaces[..i], [], k) == ts;
    assert ApplyEntryTouches(managed, ifaces[..i + 1], [], k) == ts + [a];
  }

  lemma RuleStaleAt(net: Net, managed: Managed, ifaces: seq<Interface>, order: seq<string>, name: string, r: Rule,
                    c: nat)
    ensures var was := Lookup(managed, name);
            Fold(c, ApplyTouches(net, managed, ifaces, order + [name], r))
            == Step(Step(Fold(c, ApplyTouches(net, managed, ifaces, order, r)), RemoveRuleTouch(was.policyRoutes, r)),
                    TeardownTouch(net, was, r))
  {
    hide RemoveRuleTouch, TeardownTouch, IfaceTouches, Fold;
    assert (order + [name])[..|order|] == order;
    var was := Lookup(managed, name);
    var ts := ApplyTouches(net, managed, ifaces, order, r);
    var a, b := RemoveRuleTouch(was.policyRoutes, r), TeardownTouch(net, was, r);
    FoldTwo(c, ts, a, b);
    assert StaleTouches(net, managed, order + [name], r) == StaleTouches(net, managed, order, r) + [a, b];
    assert ApplyTouches(net, managed, ifaces, order + [name], r) == ts + [a, b];
  }

  lemma EntryStaleAt(managed: Managed, ifaces: seq<Interface>, order: seq<string>, name: string, k: Argv, c: nat)
    ensures Fold(c, ApplyEntryTouches(managed, ifaces, order + [name], k))
            == Step(Fold(c, ApplyEntryTouches(managed, ifaces, order, k)),
                    RemoveTouch(Lookup(managed, name).policyRoutes, k))
  {
    hide RemoveTouch, IfaceEntryTouches, Fold;
    assert (order + [name])[..|order|] == order;
    var ts := ApplyEntryTouches(managed, ifaces, order, k);
    var a := RemoveTouch(Lookup(managed, name).policyRoutes, k);
    FoldPush(c, ts, a);
    assert ApplyEntryTouches(managed, ifaces, order + [name], k) == ts + [a];
  }

  lemma RulesIface(net: Net, managed: Managed, ifaces: seq<Interface>, i: nat, rules: multiset<Rule>,
                   mid: multiset<Rule>, after: multiset<Rule>)
    requires i < |ifaces|
    requires RulesMoved(net, managed, ifaces[..i], [], rules, mid)
    requires IfaceRules(net, Lookup(managed, ifaces[i].name), ifaces[i], mid, after)
    ensures RulesMoved(net, managed, ifaces[..i + 1], [], rules, after)
  {
    forall r { RuleIfaceAt(net, managed, ifaces, i, r, rules[r]); }
  }

  lemma EntriesIface(managed: Managed, ifaces: seq<Interface>, i: nat, entries: multiset<Argv>,
                     mid: multiset<Argv>, after: multiset<Argv>)
    requires i < |ifaces|
    requires EntriesMoved(managed, ifaces[..i], [], entries, mid)
    requires IfaceEntries(Lookup(managed, ifaces[i].name), ifaces[i], mid, after)
    ensures EntriesMoved(managed, ifaces[..i + 1], [], entries, after)
  {
    forall k { EntryIfaceAt(managed, ifaces, i, k, entries[k]); }
  }

  lemma RulesStale(net: Net, managed: Managed, ifaces: seq<Interface>, order: seq<string>, name: string,
                   rules: multiset<Rule>, mid: multiset<Rule>, after: multiset<Rule>)
    requires RulesMoved(net, managed, ifaces, order, rules, mid)
    requires RemovedRules(net, Lookup(managed, name), mid, after)
    ensures RulesMoved(net, managed, ifaces, order + [name], rules, after)
  {
    forall r { RuleStaleAt(net, managed, ifaces, order, name, r, rules[r]); }
  }

  lemma EntriesStale(managed: Managed, ifaces: seq<Interface>, order: seq<string>, name: string,
                     entries: multiset<Argv>, mid: multiset<Argv>, after: multiset<Argv>)
    requires EntriesMoved(managed, ifaces, order, entries, mid)
    requires RemovedEntries(Lookup(managed, name), mid, after)
    ensures EntriesMoved(managed, ifaces, order + [name], entries, after)
  {
    forall k { EntryStaleAt(managed, ifaces, order, name, k, entries[k]); }
  }

  /** Names of the interfaces that were managed and are not desired any more. */
  function StaleNames(managed: Managed, ifaces: seq<Interface>): set<string> {
    managed.Keys - ByName(ifaces).Keys
  }

  /** The device a name has, or a new one. */
  function DeviceOf(devices: map<string, Device>, name: string): Device {
    if name in devices then devices[name] else WgDevice.NEW_DEVICE
  }

  /** The body of Apply's first loop. */
  method ReconcileIface(h: Kernel, net: Net, was: Interface, iface: Interface)
    modifies h`rules, h`entries, h`devices, h`disruptions
    ensures IfaceRules(net, was, iface, old(h.rules), h.rules)
    ensures IfaceEntries(was, iface, old(h.entries), h.entries)
    ensures iface.name in h.devices
    ensures WgDevice.DeviceStep(net, iface, DeviceOf(old(h.devices), iface.name), h.devices[iface.name])
    ensures h.devices == old(h.devices)[iface.name := h.devices[iface.name]]
  {
    hide NatTouch, PolicyTouch, PolicyRuleTouch, WgDevice.DeviceStep;
    var _ := WgDevice.Reconcile(h, net, iface);
    var _ := ReconcileNat(h, net, was, iface);
    ReconcilePolicyRoutes(h, was.policyRoutes, iface.policyRoutes);
  }

  /** The body of Apply's second loop. */
  method RemoveIface(h: Kernel, net: Net, was: Interface, name: string)
    modifies h`rules, h`entries, h`devices, h`disruptions
    ensures RemovedRules(net, was, old(h.rules), h.rules)
    ensures RemovedEntries(was, old(h.entries), h.entries)
    ensures h.devices == old(h.devices) - {name}
  {
    hide RulesOf, Keys, Clears, Owns;
    RemovePolicyRoutes(h, was.policyRoutes);
    TeardownNat(h, net, was);
    h.RemoveDevice(name);
  }

  /** Devices after the first loop reached the given interfaces: others are untouched, these took
      their step. */
  ghost predicate DevicesKept(ifaces: seq<Interface>, before: map<string, Device>, after: map<string, Device>) {
    && (forall n | n !in ByName(ifaces) :: n in after <==> n in before)
    && (forall n | n !in ByName(ifaces) && n in after :: after[n] == before[n])
  }

  ghost predicate DevicesStepped(net: Net, ifaces: seq<Interface>, before: map<string, Device>, after: map<string,
                                 Device>) {
    forall i | 0 <= i < |ifaces| :: DeviceStepped(net, ifaces[i], before, after)
  }

  ghost predicate DeviceStepped(net: Net, iface: Interface, before: map<string, Device>, after: map<string, Device>) {
    iface.name in after && WgDevice.DeviceStep(net, iface, DeviceOf(before, iface.name), after[iface.name])
  }

  lemma StillStepped(net: Net, iface: Interface, before: map<string, Device>, mid: map<string, Device>, n: string,
                     d: Device)
    requires DeviceStepped(net, iface, before, mid) && iface.name != n
    ensures DeviceStepped(net, iface, before, mid[n := d])
  {
    hide WgDevice.DeviceStep;
    assert mid[n := d][iface.name] == mid[iface.name];
  }

  lemma NamePush(ifaces: seq<Interface>, i: nat)
    requires i < |ifaces|
    ensures forall n :: n in ByName(ifaces[..i + 1]) <==> n in ByName(ifaces[..i]) || n == ifaces[i].name
    ensures DistinctNames(ifaces) ==> ifaces[i].name !in ByName(ifaces[..i])
  {
    assert ifaces[..i + 1][..i] == ifaces[..i];
  }

  lemma NoDeviceMoved(net: Net, devices: map<string, Device>)
    ensures DevicesKept([], devices, devices) && DevicesStepped(net, [], devices, devices)
  {
  }

  lemma DevicesKeptPush(ifaces: seq<Interface>, i: nat, before: map<string, Device>, mid: map<string, Device>,
                        d: Device)
    requires i < |ifaces| && DevicesKept(ifaces[..i], before, mid)
    ensures DevicesKept(ifaces[..i + 1], before, mid[ifaces[i].name := d])
  {
    hide ByName;
    NamePush(ifaces, i);
  }

  lemma DevicesSteppedPush(net: Net, ifaces: seq<Interface>, i: nat, before: map<string, Device>, mid: map<string,
                           Device>, d: Device)
    requires i < |ifaces| && DistinctNames(ifaces)
    requires DevicesKept(ifaces[..i], before, mid) && DevicesStepped(net, ifaces[..i], before, mid)
    requires WgDevice.DeviceStep(net, ifaces[i], DeviceOf(mid, ifaces[i].name), d)
    ensures DevicesStepped(net, ifaces[..i + 1], before, mid[ifaces[i].name := d])
  {
    hide ByName, WgDevice.DeviceStep;
    NamePush(ifaces, i);
    var name := ifaces[i].name;
    assert DeviceOf(mid, name) == DeviceOf(before, name);
    var done := ifaces[..i + 1];
    forall j | 0 <= j < |done| ensures DeviceStepped(net, done[j], before, mid[name := d]) {
      if j < i {
        assert ifaces[..i][j] == done[j] == ifaces[j];
        StillStepped(net, done[j], before, mid, name, d);
      }
    }
  }

  /** Devices outside the configuration: the ones managed before are gone, the others untouched. */
  ghost predicate DevicesLeft(managed: Managed, ifaces: seq<Interface>, before: map<string, Device>,
                              after: map<string, Device>) {
    && (forall n | n !in ByName(ifaces) :: n in after <==> n in before && n !in managed)
    && (forall n | n !in ByName(ifaces) && n in after :: after[n] == before[n])
  }

  lemma DevicesAfterRemoval(net: Net, managed: Managed, ifaces: seq<Interface>, before: map<string, Device>,
                            mid: map<string, Device>)
    requires DevicesKept(ifaces, before, mid)
    ensures DevicesLeft(managed, ifaces, before, mid - StaleNames(managed, ifaces))
    ensures DevicesStepped(net, ifaces, before, mid) ==> DevicesStepped(net, ifaces, before,
            mid - StaleNames(managed, ifaces))
  {
    hide WgDevice.DeviceStep;
    var after := mid - StaleNames(managed, ifaces);
    if DevicesStepped(net, ifaces, before, mid) {
      forall i | 0 <= i < |ifaces| ensures DeviceStepped(net, ifaces[i], before, after) {
        assert DeviceStepped(net, ifaces[i], before, mid);
        assert ifaces[i].name in ByName(ifaces);
        assert after[ifaces[i].name] == mid[ifaces[i].name];
      }
    }
  }

  class Engine {
    /** Interface name -> last applied state. */
    var managed: Managed

    constructor ()
      ensures managed == map[]
    {
      managed := map[];
    }

    /** Reconciles every desired interface, then tears down what is no longer desired. `order` is the
        order in which the map of managed interfaces happened to be walked. */
    method Apply(h: Kernel, net: Net, desired: seq<Interface>) returns (ghost order: seq<string>)
      modifies this, h`rules, h`entries, h`devices, h`disruptions
      ensures managed == ByName(desired)
      ensures WgDevice.Enumerates(order, StaleNames(old(managed), desired))
      ensures RulesMoved(net, old(managed), desired, order, old(h.rules), h.rules)
      ensures EntriesMoved(old(managed), desired, order, old(h.entries), h.entries)
      ensures DistinctNames(desired) ==> DevicesStepped(net, desired, old(h.devices), h.devices)
      ensures DevicesLeft(old(managed), desired, old(h.devices), h.devices)
    {
      hide RulesMoved, EntriesMoved, IfaceRules, IfaceEntries, DevicesKept, DevicesStepped, DevicesLeft,
           WgDevice.DeviceStep;
      var want: Managed := map[];
      NothingMoved(net, managed, h.rules, h.entries);
      assert desired[..0] == [];
      NoDeviceMoved(net, h.devices);
      for i := 0 to |desired|
        invariant want == ByName(desired[..i])
        invariant managed == old(managed)
        invariant RulesMoved(net, managed, desired[..i], [], old(h.rules), h.rules)
        invariant EntriesMoved(managed, desired[..i], [], old(h.entries), h.entries)
        invariant DevicesKept(desired[..i], old(h.devices), h.devices)
        invariant DistinctNames(desired) ==> DevicesStepped(net, desired[..i], old(h.devices), h.devices)
      {
        var iface := desired[i];
        assert desired[..i + 1][..i] == desired[..i];
        ghost var rules, entries, devices := h.rules, h.entries, h.devices;
        want := want[iface.name := iface];
        ReconcileIface(h, net, Lookup(managed, iface.name), iface);
        RulesIface(net, managed, desired, i, old(h.rules), rules, h.rules);
        EntriesIface(managed, desired, i, old(h.entries), entries, h.entries);
        DevicesKeptPush(desired, i, old(h.devices), devices, h.devices[iface.name]);
        if DistinctNames(desired) {
          DevicesSteppedPush(net, desired, i, old(h.devices), devices, h.devices[iface.name]);
        }
      }
      assert desired[..|desired|] == desired;
      ghost var mid := h.devices;
      order := RemoveStale(h, net, desired, want, old(h.rules), old(h.entries));
      DevicesAfterRemoval(net, managed, desired, old(h.devices), mid);
      managed := want;
    }

    /** The second loop of Apply. */
    method RemoveStale(h: Kernel, net: Net, ghost desired: seq<Interface>, want: Managed,
                       ghost rules0: multiset<Rule>, ghost entries0: multiset<Argv>) returns (ghost order: seq<string>)
      requires want == ByName(desired)
      requires RulesMoved(net, managed, desired, [], rules0, h.rules)
      requires EntriesMoved(managed, desired, [], entries0, h.entries)
      modifies h`rules, h`entries, h`devices, h`disruptions
      ensures WgDevice.Enumerates(order, StaleNames(managed, desired))
      ensures RulesMoved(net, managed, desired, order, rules0, h.rules)
      ensures EntriesMoved(managed, desired, order, entries0, h.entries)
      ensures h.devices == old(h.devices) - StaleNames(managed, desired)
    {
      hide RulesMoved, EntriesMoved, RemovedRules, RemovedEntries;
      order := [];
      ghost var gone: set<string> := {};
      var names := managed.Keys;
      while names != {}
        invariant names <= managed.Keys && gone == managed.Keys - names - want.Keys
        invariant WgDevice.Enumerates(order, gone)
        invariant RulesMoved(net, managed, desired, order, rules0, h.rules)
        invariant EntriesMoved(managed, desired, order, entries0, h.entries)
        invariant h.devices == old(h.devices) - gone
      {
        var name :| name in names;
        names := names - {name};
        if name in want { continue; }
        ghost var rules, entries := h.rules, h.entries;
        RemoveIface(h, net, managed[name], name);
        RulesStale(net, managed, desired, order, name, rules0, rules, h.rules);
        EntriesStale(managed, desired, order, name, entries0, entries, h.entries);
        EnumeratesPush(order, gone, name);
        order, gone := order + [name], gone + {name};
      }
    }
  }

  lemma EnumeratesPush(order: seq<string>, s: set<string>, n: string)
    requires WgDevice.Enumerates(order, s) && n !in s
    ensures WgDevice.Enumerates(order + [n], s + {n})
  {
    assert forall k :: k in order + [n] <==> k in order || k == n;
  }
}
