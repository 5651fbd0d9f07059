/** What one sync, and one watchdog tick, do to the host: the passes of node/controller.go as
    functions of the configuration and of what the agent remembers. */
module SyncEffects {
  import opened Host
  import opened Types
  import opened Counts
  import opened Nat
  import opened Policy
  import opened KernelEngine
  import OverlayLink
  import Overlay
  import ExtrasReconcile

  type LinkConfig = OverlayLink.Config

  /** Interface name -> custom entries applied for it. */
  type ExtrasMap = map<string, Extras>

  function ExtrasOf(m: ExtrasMap, name: string): Extras {
    if name in m then m[name] else NO_EXTRAS
  }

  /** The memory of custom entries after one interface was visited. */
  function ExtrasVisit(m: ExtrasMap, iface: Interface): ExtrasMap {
    if ExtrasOf(m, iface.name).IsZero() && iface.extras.IsZero() then m else m[iface.name := iface.extras]
  }

  function ExtrasAfter(m: ExtrasMap, ifaces: seq<Interface>): ExtrasMap {
    if ifaces == [] then m else ExtrasVisit(ExtrasAfter(m, ifaces[..|ifaces| - 1]), ifaces[|ifaces| - 1])
  }

  /** Visiting interfaces in turn: each one reads the memory the sync started with, and leaves its own
      custom entries. */
  lemma {:induction false} ExtrasAfterGives(m: ExtrasMap, ifaces: seq<Interface>, name: string)
    requires DistinctNames(ifaces)
    ensures forall iface | iface in ifaces && iface.name == name :: ExtrasOf(ExtrasAfter(m, ifaces), name)
              == iface.extras
    ensures (forall iface | iface in ifaces :: iface.name != name) ==>
              ExtrasOf(ExtrasAfter(m, ifaces), name)
              == ExtrasOf(m, name)
  {
    if ifaces != [] {
      var init, last := ifaces[..|ifaces| - 1], ifaces[|ifaces| - 1];
      assert ifaces == init + [last];
      ExtrasAfterGives(m, init, name);
    }
  }

  // ---- touches of one rule or entry -------------------------------------------------------------

  ghost function NatEnsureTouches(net: Net, ifaces: seq<Interface>, r: Rule): seq<Touch> {
    if ifaces == [] then [] else
      NatEnsureTouches(net, ifaces[..|ifaces| - 1], r) + [Touch(0, Wants(net, ifaces[|ifaces| - 1], r))]
  }

  function ExtrasRuleTouch(m: ExtrasMap, iface: Interface, r: Rule): Touch {
    ExtrasReconcile.NatLineTouch(ExtrasOf(m, iface.name).natLines, iface.extras.natLines, r)
  }

  function ExtrasEntryTouch(m: ExtrasMap, iface: Interface, k: Argv): Touch {
    ExtrasReconcile.RuleTouch(ExtrasOf(m, iface.name).rules, iface.extras.rules, k)
  }

  function ExtrasRuleTouches(m: ExtrasMap, ifaces: seq<Interface>, r: Rule): seq<Touch> {
    if ifaces == [] then [] else
      var init, last := ifaces[..|ifaces| - 1], ifaces[|ifaces| - 1];
      ExtrasRuleTouches(m, init, r) + [ExtrasRuleTouch(ExtrasAfter(m, init), last, r)]
  }

  function ExtrasEntryTouches(m: ExtrasMap, ifaces: seq<Interface>, k: Argv): seq<Touch> {
    if ifaces == [] then [] else
      var init, last := ifaces[..|ifaces| - 1], ifaces[|ifaces| - 1];
      ExtrasEntryTouches(m, init, k) + [ExtrasEntryTouch(ExtrasAfter(m, init), last, k)]
  }

  function ExtrasRoutes(routes: Overlay.Routes, m: ExtrasMap, ifaces: seq<Interface>): Overlay.Routes {
    if ifaces == [] then routes else
      var init, last := ifaces[..|ifaces| - 1], ifaces[|ifaces| - 1];
      ExtrasReconcile.RoutesAfter(ExtrasRoutes(routes, m, init), ExtrasOf(ExtrasAfter(m, init), last.name).routes,
                                  last.extras.routes)
  }

  /** The interface lists rule r among its custom NAT lines. */
  predicate ListsRule(e: Extras, r: Rule) {
    ExtrasReconcile.Copies(ExtrasReconcile.NatList(e.natLines), ExtrasReconcile.RuleArgs(r)) > 0
  }

  predicate ListsEntry(e: Extras, k: Argv) {
    ExtrasReconcile.Copies(ExtrasReconcile.RuleList(e.rules), ExtrasReconcile.EntryArgs(k)) > 0
  }

  /** One watchdog pass: policy FORWARD rules and custom NAT lines of every interface, again. */
  function TickTouches(ifaces: seq<Interface>, r: Rule): seq<Touch> {
    if ifaces == [] then [] else
      var last := ifaces[|ifaces| - 1];
      TickTouches(ifaces[..|ifaces| - 1], r) + [Touch(0, r in RulesOf(last.policyRoutes)),
                                                Touch(0, ListsRule(last.extras, r))]
  }

  function TickEntryTouches(ifaces: seq<Interface>, k: Argv): seq<Touch> {
    if ifaces == [] then [] else
      var last := ifaces[|ifaces| - 1];
      TickEntryTouches(ifaces[..|ifaces| - 1], k) + [Touch(0, k in Keys(last.policyRoutes)),
                                                     Touch(0, ListsEntry(last.extras, k))]
  }

  /** The route commands of all interfaces, in the order in which they are visited. */
  function CustomRoutes(ifaces: seq<Interface>): seq<Argv> {
    if ifaces == [] then [] else
      CustomRoutes(ifaces[..|ifaces| - 1]) + ExtrasReconcile.RouteList(ifaces[|ifaces| - 1].extras.routes)
  }

  type RouteProbe = (Overlay.Routes, Argv) -> bool

  /** The routing table after the watchdog visited the given interfaces. */
  function TickRoutes(routes: Overlay.Routes, ifaces: seq<Interface>, probe: RouteProbe): Overlay.Routes {
    ExtrasReconcile.RestoreRoutes(routes, CustomRoutes(ifaces), probe)
  }

  function TickOverwrites(routes: Overlay.Routes, ifaces: seq<Interface>, probe: RouteProbe): nat {
    ExtrasReconcile.RestoreOverwrites(routes, CustomRoutes(ifaces), probe)
  }

  // ---- a whole sync -----------------------------------------------------------------------------

  /** The engine behind a sync, and how its turn came out. The kernel engine never reports a failure;
      sing-box, in its userspace mode, does not touch the host's rules, entries and devices. */
  datatype Driver = InKernel | InSingBox(healthy: bool) {
    predicate Succeeds() { InKernel? || healthy }
  }

  /** What the kernel engine is applied to: nothing when sing-box takes over, which tears down whatever the
      kernel engine managed before. */
  function Driven(d: Driver, ifaces: seq<Interface>): seq<Interface> { if d.InKernel? then ifaces else [] }

  /** Copies of a rule after a sync: the engine, overlay pass, NAT again, custom entries and, when the engine
      succeeded, overlay pass again. */
  ghost function SyncCopies(net: Net, managed: Managed, d: Driver, ifaces: seq<Interface>, order: seq<string>,
                            m: ExtrasMap, prev: seq<LinkConfig>, next: seq<LinkConfig>, r: Rule, c: nat): nat {
    var applied := Fold(c, ApplyTouches(net, managed, Driven(d, ifaces), order, r));
    var overlaid := Overlay.CopiesAfter(prev, next, r, applied);
    var ensured := Fold(overlaid, NatEnsureTouches(net, ifaces, r));
    var extra := Fold(ensured, ExtrasRuleTouches(m, ifaces, r));
    if d.Succeeds() then Overlay.CopiesAfter(prev, next, r, extra) else extra
  }

  function SyncEntries(managed: Managed, d: Driver, ifaces: seq<Interface>, order: seq<string>, m: ExtrasMap,
                       k: Argv, c: nat): nat {
    Fold(Fold(c, ApplyEntryTouches(managed, Driven(d, ifaces), order, k)), ExtrasEntryTouches(m, ifaces, k))
  }

  /** Links and routes after a sync: the second overlay pass only runs when the engine succeeded. */
  function SyncWires(w: Overlay.Wires, src: LinkView, m: ExtrasMap, ifaces: seq<Interface>,
                     prev: seq<LinkConfig>, next: seq<LinkConfig>, ok: bool): Overlay.Wires {
    var first := Overlay.Reconciled(w, src, prev, next);
    var custom := Overlay.Wires(first.links, ExtrasRoutes(first.routes, m, ifaces));
    if ok then Overlay.Reconciled(custom, src, prev, next) else custom
  }

  // ---- the passes as relations between host states ----------------------------------------------

  ghost predicate NatEnsured(net: Net, ifaces: seq<Interface>, before: multiset<Rule>, after: multiset<Rule>) {
    forall r :: after[r] == Fold(before[r], NatEnsureTouches(net, ifaces, r))
  }

  ghost predicate NatVisited(net: Net, iface: Interface, before: multiset<Rule>, after: multiset<Rule>) {
    forall r :: after[r] == Step(before[r], Touch(0, Wants(net, iface, r)))
  }

  lemma NatEnsureAt(net: Net, ifaces: seq<Interface>, i: nat, r: Rule, c: nat)
    requires i < |ifaces|
    ensures Fold(c, NatEnsureTouches(net, ifaces[..i + 1], r))
            == Step(Fold(c, NatEnsureTouches(net, ifaces[..i], r)), Touch(0, Wants(net, ifaces[i], r)))
  {
    hide Wants;
    assert ifaces[..i + 1][..i] == ifaces[..i];
    FoldPush(c, NatEnsureTouches(net, ifaces[..i], r), Touch(0, Wants(net, ifaces[i], r)));
  }

  lemma NatEnsuredPush(net: Net, ifaces: seq<Interface>, i: nat, before: multiset<Rule>, mid: multiset<Rule>,
                       after: multiset<Rule>)
    requires i < |ifaces| && NatEnsured(net, ifaces[..i], before, mid) && NatVisited(net, ifaces[i], mid, after)
    ensures NatEnsured(net, ifaces[..i + 1], before, after)
  {
    hide Wants, Fold, NatEnsureTouches;
    forall r ensures after[r] == Fold(before[r], NatEnsureTouches(net, ifaces[..i + 1], r)) {
      NatEnsureAt(net, ifaces, i, r, before[r]);
    }
  }

  ghost predicate ExtrasRules(m: ExtrasMap, ifaces: seq<Interface>, before: multiset<Rule>, after: multiset<Rule>) {
    forall r :: after[r] == Fold(before[r], ExtrasRuleTouches(m, ifaces, r))
  }

  ghost predicate ExtrasEntries(m: ExtrasMap, ifaces: seq<Interface>, before: multiset<Argv>, after: multiset<Argv>) {
    forall k :: after[k] == Fold(before[k], ExtrasEntryTouches(m, ifaces, k))
  }

  ghost predicate ExtrasVisited(m: ExtrasMap, iface: Interface, rules: multiset<Rule>, entries: multiset<Argv>,
                                rules': multiset<Rule>, entries': multiset<Argv>) {
    && (forall r :: rules'[r] == Step(rules[r], ExtrasRuleTouch(m, iface, r)))
    && (forall k :: entries'[k] == Step(entries[k], ExtrasEntryTouch(m, iface, k)))
  }

  lemma ExtrasRuleAt(m: ExtrasMap, ifaces: seq<Interface>, i: nat, r: Rule, c: nat)
    requires i < |ifaces|
    ensures Fold(c, ExtrasRuleTouches(m, ifaces[..i + 1], r))
            == Step(Fold(c, ExtrasRuleTouches(m, ifaces[..i], r)), ExtrasRuleTouch(ExtrasAfter(m, ifaces[..i]),
                ifaces[i], r))
  {
    hide ExtrasRuleTouch, ExtrasAfter;
    assert ifaces[..i + 1][..i] == ifaces[..i];
    FoldPush(c, ExtrasRuleTouches(m, ifaces[..i], r), ExtrasRuleTouch(ExtrasAfter(m, ifaces[..i]), ifaces[i], r));
  }

  lemma ExtrasEntryAt(m: ExtrasMap, ifaces: seq<Interface>, i: nat, k: Argv, c: nat)
    requires i < |ifaces|
    ensures Fold(c, ExtrasEntryTouches(m, ifaces[..i + 1], k))
            == Step(Fold(c, ExtrasEntryTouches(m, ifaces[..i], k)), ExtrasEntryTouch(ExtrasAfter(m, ifaces[..i]),
                ifaces[i], k))
  {
    hide ExtrasEntryTouch, ExtrasAfter;
    assert ifaces[..i + 1][..i] == ifaces[..i];
    FoldPush(c, ExtrasEntryTouches(m, ifaces[..i], k), ExtrasEntryTouch(ExtrasAfter(m, ifaces[..i]), ifaces[i], k));
  }

  lemma ExtrasPush(m: ExtrasMap, ifaces: seq<Interface>, i: nat,
                   rules0: multiset<Rule>, entries0: multiset<Argv>, rules: multiset<Rule>, entries: multiset<Argv>,
                   rules': multiset<Rule>, entries': multiset<Argv>)
    requires i < |ifaces|
    requires ExtrasRules(m, ifaces[..i], rules0, rules) && ExtrasEntries(m, ifaces[..i], entries0, entries)
    requires ExtrasVisited(ExtrasAfter(m, ifaces[..i]), ifaces[i], rules, entries, rules', entries')
    ensures ExtrasRules(m, ifaces[..i + 1], rules0, rules') && ExtrasEntries(m, ifaces[..i + 1], entries0, entries')
  {
    hide ExtrasRuleTouch, ExtrasEntryTouch, ExtrasAfter, Fold, ExtrasRuleTouches, ExtrasEntryTouches;
    forall r ensures rules'[r] == Fold(rules0[r], ExtrasRuleTouches(m, ifaces[..i + 1], r)) {
      ExtrasRuleAt(m, ifaces, i, r, rules0[r]);
    }
    forall k ensures entries'[k] == Fold(entries0[k], ExtrasEntryTouches(m, ifaces[..i + 1], k)) {
      ExtrasEntryAt(m, ifaces, i, k, entries0[k]);
    }
  }

  lemma EmptyLists()
    ensures ExtrasReconcile.NatList([]) == [] && ExtrasReconcile.RuleList([]) == []
            && ExtrasReconcile.RouteList([]) == []
  {
  }

  /** Skipping an interface without custom entries, before and now, is what reconciling it would have
      done. */
  lemma SkippedExtras(before: Extras, after: Extras, routes: Overlay.Routes)
    requires before.IsZero() && after.IsZero()
    ensures forall r :: ExtrasReconcile.NatLineTouch(before.natLines, after.natLines, r) == NOTHING
    ensures forall k :: ExtrasReconcile.RuleTouch(before.rules, after.rules, k) == NOTHING
    ensures ExtrasReconcile.RoutesAfter(routes, before.routes, after.routes) == routes
  {
    hide ExtrasReconcile.NatList, ExtrasReconcile.RuleList, ExtrasReconcile.RouteList;
    EmptyLists();
  }

  ghost predicate Ticked(ifaces: seq<Interface>, before: multiset<Rule>, after: multiset<Rule>) {
    forall r :: after[r] == Fold(before[r], TickTouches(ifaces, r))
  }

  ghost predicate TickedEntries(ifaces: seq<Interface>, before: multiset<Argv>, after: multiset<Argv>) {
    forall k :: after[k] == Fold(before[k], TickEntryTouches(ifaces, k))
  }

  lemma OneTick(iface: Interface, r: Rule, c: nat)
    ensures Fold(c, TickTouches([iface], r))
            == Step(Step(c, Touch(0, r in RulesOf(iface.policyRoutes))), Touch(0, ListsRule(iface.extras, r)))
  {
    hide RulesOf, ListsRule;
    var a, b := Touch(0, r in RulesOf(iface.policyRoutes)), Touch(0, ListsRule(iface.extras, r));
    assert TickTouches([iface], r) == [] + [a, b];
    FoldTwo(c, [], a, b);
  }

  lemma OneEntryTick(iface: Interface, k: Argv, c: nat)
    ensures Fold(c, TickEntryTouches([iface], k))
            == Step(Step(c, Touch(0, k in Keys(iface.policyRoutes))), Touch(0, ListsEntry(iface.extras, k)))
  {
    hide Keys, ListsEntry;
    var a, b := Touch(0, k in Keys(iface.policyRoutes)), Touch(0, ListsEntry(iface.extras, k));
    assert TickEntryTouches([iface], k) == [] + [a, b];
    FoldTwo(c, [], a, b);
  }

  lemma TickAt(ifaces: seq<Interface>, i: nat, r: Rule, c: nat)
    requires i < |ifaces|
    ensures Fold(c, TickTouches(ifaces[..i + 1], r)) == Fold(Fold(c, TickTouches(ifaces[..i], r)),
                                                             TickTouches([ifaces[i]], r))
  {
    hide RulesOf, ListsRule, Fold;
    assert ifaces[..i + 1][..i] == ifaces[..i];
    assert TickTouches(ifaces[..i + 1], r) == TickTouches(ifaces[..i], r) + TickTouches([ifaces[i]], r);
    FoldConcat(c, TickTouches(ifaces[..i], r), TickTouches([ifaces[i]], r));
  }

  lemma TickEntryAt(ifaces: seq<Interface>, i: nat, k: Argv, c: nat)
    requires i < |ifaces|
    ensures Fold(c, TickEntryTouches(ifaces[..i + 1], k))
            == Fold(Fold(c, TickEntryTouches(ifaces[..i], k)), TickEntryTouches([ifaces[i]], k))
  {
    hide Keys, ListsEntry, Fold;
    assert ifaces[..i + 1][..i] == ifaces[..i];
    assert TickEntryTouches(ifaces[..i + 1], k) == TickEntryTouches(ifaces[..i], k) + TickEntryTouches([ifaces[i]], k);
    FoldConcat(c, TickEntryTouches(ifaces[..i], k), TickEntryTouches([ifaces[i]], k));
  }

  lemma TickPush(ifaces: seq<Interface>, i: nat, before: multiset<Rule>, mid: multiset<Rule>, after: multiset<Rule>)
    requires i < |ifaces| && Ticked(ifaces[..i], before, mid) && Ticked([ifaces[i]], mid, after)
    ensures Ticked(ifaces[..i + 1], before, after)
  {
    hide Fold, TickTouches;
    forall r ensures after[r] == Fold(before[r], TickTouches(ifaces[..i + 1], r)) {
      TickAt(ifaces, i, r, before[r]);
    }
  }

  lemma TickEntriesPush(ifaces: seq<Interface>, i: nat, before: multiset<Argv>, mid: multiset<Argv>,
                        after: multiset<Argv>)
    requires i < |ifaces| && TickedEntries(ifaces[..i], before, mid) && TickedEntries([ifaces[i]], mid, after)
    ensures TickedEntries(ifaces[..i + 1], before, after)
  {
    hide Fold, TickEntryTouches;
    forall k ensures after[k] == Fold(before[k], TickEntryTouches(ifaces[..i + 1], k)) {
      TickEntryAt(ifaces, i, k, before[k]);
    }
  }

  lemma TickRoutesPush(routes: Overlay.Routes, ifaces: seq<Interface>, i: nat, probe: RouteProbe)
    requires i < |ifaces|
    ensures var mid, list := TickRoutes(routes, ifaces[..i], probe), ExtrasReconcile.RouteList(ifaces[i].extras.routes);
            && TickRoutes(routes, ifaces[..i + 1], probe) == ExtrasReconcile.RestoreRoutes(mid, list, probe)
            && TickOverwrites(routes, ifaces[..i + 1], probe)
               == TickOverwrites(routes, ifaces[..i], probe) + ExtrasReconcile.RestoreOverwrites(mid, list, probe)
  {
    hide ExtrasReconcile.RouteList, ExtrasReconcile.RestoreRoutes, ExtrasReconcile.RestoreOverwrites;
    assert ifaces[..i + 1][..i] == ifaces[..i];
    ExtrasReconcile.RestoreConcat(routes, CustomRoutes(ifaces[..i]),
                                  ExtrasReconcile.RouteList(ifaces[i].extras.routes), probe);
  }

  lemma NoTickRoutes(routes: Overlay.Routes, probe: RouteProbe)
    ensures TickRoutes(routes, [], probe) == routes && TickOverwrites(routes, [], probe) == 0
  {
  }

  lemma NothingVisited(net: Net, m: ExtrasMap, rules: multiset<Rule>, entries: multiset<Argv>)
    ensures NatEnsured(net, [], rules, rules)
    ensures ExtrasRules(m, [], rules, rules) && ExtrasEntries(m, [], entries, entries)
    ensures Ticked([], rules, rules) && TickedEntries([], entries, entries)
  {
  }
}
