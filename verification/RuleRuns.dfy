/** Whole runs of syncs and watchdog ticks, seen by one firewall rule: masquerading and forwarding
    rules (wg/nat.go), policy FORWARD rules (wg/policy.go) and custom NAT lines (extras/extras.go)
    under the kernel engine (engine/kernel.go) and the sync loop (node/controller.go). */
module RuleRuns {
  import opened Host
  import opened Types
  import opened Counts
  import opened Nat
  import opened Policy
  import opened KernelEngine
  import opened SyncEffects
  import Overlay
  import OverlayFirewall
  import ExtrasReconcile
  import WgDevice

  /** What the agent remembers between syncs. */
  datatype Memory = Memory(managed: Managed, vxlan: seq<LinkConfig>, extras: ExtrasMap, desired: seq<Interface>)

  const START := Memory(map[], [], map[], [])

  /** A sync of a configuration, with the engine behind it and the order in which stale interfaces were torn
      down, or a watchdog tick, with its presence test for routes. */
  datatype Event =
    | Sync(ifaces: seq<Interface>, links: seq<LinkConfig>, order: seq<string>, driver: Driver)
    | Tick(probe: RouteProbe)

  /** Links and custom entries are remembered in any case, the desired state only when the engine succeeded:
      after a failure the watchdog still watches the older one. */
  function Remember(m: Memory, e: Event): Memory {
    match e
    case Sync(ifaces, links, _, d) =>
      Memory(ByName(Driven(d, ifaces)), links, ExtrasAfter(m.extras, ifaces),
             if d.Succeeds() then ifaces else m.desired)
    case Tick(_) => m
  }

  function MemoryAfter(run: seq<Event>): Memory {
    if run == [] then START else Remember(MemoryAfter(run[..|run| - 1]), run[|run| - 1])
  }

  ghost predicate Proper(m: Memory, e: Event) {
    e.Sync? ==> DistinctNames(e.ifaces) && WgDevice.Enumerates(e.order,
                                                               StaleNames(m.managed, Driven(e.driver, e.ifaces)))
  }

  /** Interface names are distinct within each configuration. */
  ghost predicate ProperRun(run: seq<Event>) {
    forall i | 0 <= i < |run| :: Proper(MemoryAfter(run[..i]), run[i])
  }

  ghost function CopiesAfterEvent(net: Net, m: Memory, e: Event, r: Rule, c: nat): nat {
    match e
    case Sync(ifaces, links, order, d) => SyncCopies(net, m.managed, d, ifaces, order, m.extras, m.vxlan, links, r, c)
    case Tick(_) => Fold(c, TickTouches(m.desired, r))
  }

  ghost function CopiesAfterRun(net: Net, run: seq<Event>, r: Rule, base: nat): nat {
    if run == [] then base else
      var init := run[..|run| - 1];
      CopiesAfterEvent(net, MemoryAfter(init), run[|run| - 1], r, CopiesAfterRun(net, init, r, base))
  }

  // ---- which passes a rule can belong to --------------------------------------------------------

  /** The rules the overlay passes look after have this shape. */
  predicate OverlayShape(r: Rule) {
    r.table == "" && |r.args| == 4 && r.args[0] in {"-p", "-i", "-o"}
  }

  lemma OverlayLeavesAlone(prev: seq<LinkConfig>, next: seq<LinkConfig>, r: Rule, c: nat)
    requires !OverlayShape(r)
    ensures Overlay.CopiesAfter(prev, next, r, c) == c
  {
    forall n: string ensures r !in OverlayFirewall.LinkRules(n) { NotLinkRule(r, n); }
    NotForgotten(Overlay.RemoveList(prev, next), r);
    assert !Overlay.Needed(next, r);
    assert !Overlay.Managed(next, r);
  }

  lemma NotLinkRule(r: Rule, n: string)
    requires !OverlayShape(r)
    ensures r !in OverlayFirewall.LinkRules(n) && r !in OverlayFirewall.ProtocolRules()
  {
  }

  lemma {:induction false} NotForgotten(names: seq<string>, r: Rule)
    requires forall n: string :: r !in OverlayFirewall.LinkRules(n)
    ensures Overlay.Forgotten(names, r) == 0
  {
    if names != [] { NotForgotten(names[..|names| - 1], r); }
  }

  /** NAT, policy and custom rules are never overlay rules, and NAT rules are never policy rules. */
  lemma OwnShapes(net: Net, iface: Interface, r: Rule)
    ensures Owns(net, iface, r) ==> !OverlayShape(r) && forall text :: r !in RulesOf(text)
    ensures r in RulesOf(iface.policyRoutes) ==> !OverlayShape(r)
    ensures ListsRule(iface.extras, r) ==> !OverlayShape(r)
  {
    hide FromSubnets, PolicyLines, SourcesOk, IsSource, ResolveEgress, ExtrasReconcile.NatList;
    assert "-s"[1] == 's' && "-d"[1] == 'd' && "-i"[1] == 'i' && "-o"[1] == 'o' && "-p"[1] == 'p';
    ForwardRulesMembers(FromSubnets(PolicyLines(iface.policyRoutes)), r);
    if Owns(net, iface, r) {
      forall text ensures r !in RulesOf(text) {
        ForwardRulesMembers(FromSubnets(PolicyLines(text)), r);
      }
    }
  }

  // ---- a sync as one list of touches ------------------------------------------------------------

  ghost function SyncTouches(net: Net, m: Memory, e: Event, r: Rule): seq<Touch>
    requires e.Sync?
  {
    ApplyTouches(net, m.managed, Driven(e.driver, e.ifaces), e.order, r) + NatEnsureTouches(net, e.ifaces, r)
    + ExtrasRuleTouches(m.extras, e.ifaces, r)
  }

  lemma SyncIsFold(net: Net, m: Memory, e: Event, r: Rule, c: nat)
    requires e.Sync? && !OverlayShape(r)
    ensures CopiesAfterEvent(net, m, e, r, c) == Fold(c, SyncTouches(net, m, e, r))
  {
    hide Fold, ApplyTouches, NatEnsureTouches, ExtrasRuleTouches, Overlay.CopiesAfter, OverlayShape;
    var a := ApplyTouches(net, m.managed, Driven(e.driver, e.ifaces), e.order, r);
    var b, x := NatEnsureTouches(net, e.ifaces, r), ExtrasRuleTouches(m.extras, e.ifaces, r);
    OverlayLeavesAlone(m.vxlan, e.links, r, Fold(c, a));
    OverlayLeavesAlone(m.vxlan, e.links, r, Fold(Fold(Fold(c, a), b), x));
    FoldConcat(c, a, b);
    FoldConcat(c, a + b, x);
  }

  /** The touches of one desired interface; NAT parameters and policy routes are the kernel engine's. */
  ghost predicate ByIface(net: Net, m: Memory, d: Driver, iface: Interface, r: Rule, t: Touch) {
    var was := Lookup(m.managed, iface.name);
    || (d.InKernel? && (t == NatTouch(net, was, iface, r) || t == PolicyRuleTouch(was.policyRoutes,
        iface.policyRoutes, r)))
    || t == Touch(0, Wants(net, iface, r))
    || t == ExtrasReconcile.NatLineTouch(ExtrasOf(m.extras, iface.name).natLines, iface.extras.natLines, r)
  }

  /** The touches of one interface that is not desired any more. */
  ghost predicate ByStale(net: Net, m: Memory, name: string, r: Rule, t: Touch) {
    var was := Lookup(m.managed, name);
    t == RemoveRuleTouch(was.policyRoutes, r) || t == TeardownTouch(net, was, r)
  }

  lemma {:induction false} IfaceTouchIn(net: Net, managed: Managed, ifaces: seq<Interface>, r: Rule, t: Touch)
    ensures t in IfaceTouches(net, managed, ifaces, r) <==>
            exists iface :: iface in ifaces && (t == NatTouch(net, Lookup(managed, iface.name), iface, r)
                            || t == PolicyRuleTouch(Lookup(managed, iface.name).policyRoutes, iface.policyRoutes, r))
  {
    hide NatTouch, PolicyRuleTouch, Lookup;
    if ifaces != [] {
      assert ifaces == ifaces[..|ifaces| - 1] + [ifaces[|ifaces| - 1]];
      IfaceTouchIn(net, managed, ifaces[..|ifaces| - 1], r, t);
    }
  }

  lemma {:induction false} StaleTouchIn(net: Net, managed: Managed, order: seq<string>, r: Rule, t: Touch)
    ensures t in StaleTouches(net, managed, order, r) <==>
            exists n :: n in order && (t == RemoveRuleTouch(Lookup(managed, n).policyRoutes, r)
                                       || t == TeardownTouch(net, Lookup(managed, n), r))
  {
    hide RemoveRuleTouch, TeardownTouch, Lookup;
    if order != [] {
      assert order == order[..|order| - 1] + [order[|order| - 1]];
      StaleTouchIn(net, managed, order[..|order| - 1], r, t);
    }
  }

  lemma {:induction false} EnsureTouchIn(net: Net, ifaces: seq<Interface>, r: Rule, t: Touch)
    ensures t in NatEnsureTouches(net, ifaces, r) <==>
              exists iface :: iface in ifaces
                && t == Touch(0, Wants(net, iface, r))
  {
    hide Wants;
    if ifaces != [] {
      assert ifaces == ifaces[..|ifaces| - 1] + [ifaces[|ifaces| - 1]];
      EnsureTouchIn(net, ifaces[..|ifaces| - 1], r, t);
    }
  }

  lemma {:induction false} ExtrasTouchIn(m: ExtrasMap, ifaces: seq<Interface>, r: Rule, t: Touch)
    requires DistinctNames(ifaces)
    ensures t in ExtrasRuleTouches(m, ifaces, r) <==>
              exists iface :: iface in ifaces
                && t == ExtrasRuleTouch(m, iface, r)
  {
    hide ExtrasReconcile.NatLineTouch, ExtrasAfter;
    if ifaces != [] {
      var init, last := ifaces[..|ifaces| - 1], ifaces[|ifaces| - 1];
      assert ifaces == init + [last];
      ExtrasTouchIn(m, init, r, t);
      ExtrasAfterGives(m, init, last.name);
      assert ExtrasRuleTouch(ExtrasAfter(m, init), last, r) == ExtrasRuleTouch(m, last, r);
    }
  }

  lemma SyncTouchIn(net: Net, m: Memory, e: Event, r: Rule, t: Touch)
    requires e.Sync? && DistinctNames(e.ifaces)
    ensures t in SyncTouches(net, m, e, r) <==>
            || (exists iface :: iface in e.ifaces && ByIface(net, m, e.driver, iface, r, t))
            || (exists n :: n in e.order && ByStale(net, m, n, r, t))
  {
    hide IfaceTouches, StaleTouches, NatEnsureTouches, ExtrasRuleTouches, NatTouch, PolicyRuleTouch, RemoveRuleTouch,
         TeardownTouch,
         Wants, Lookup, ExtrasReconcile.NatLineTouch, DistinctNames;
    IfaceTouchIn(net, m.managed, Driven(e.driver, e.ifaces), r, t);
    StaleTouchIn(net, m.managed, e.order, r, t);
    EnsureTouchIn(net, e.ifaces, r, t);
    ExtrasTouchIn(m.extras, e.ifaces, r, t);
  }

  // ---- who claims a rule ------------------------------------------------------------------------

  /** The interface computes, lists or has listed rule r: the agent may ever touch r because of it. */
  ghost predicate Mentions(net: Net, iface: Interface, r: Rule) {
    Owns(net, iface, r) || r in RulesOf(iface.policyRoutes) || ListsRule(iface.extras, r)
  }

  /** The sync asks for rule r because of this interface; policy rules are the kernel engine's. */
  ghost predicate Asks(net: Net, d: Driver, iface: Interface, r: Rule) {
    Wants(net, iface, r) || (d.InKernel? && r in RulesOf(iface.policyRoutes)) || ListsRule(iface.extras, r)
  }

  ghost predicate AskedFor(net: Net, e: Event, r: Rule)
    requires e.Sync?
  {
    exists iface :: iface in e.ifaces && Asks(net, e.driver, iface, r)
  }

  /** The tick asks for policy and custom rules only. */
  ghost predicate TickAsks(ifaces: seq<Interface>, r: Rule) {
    exists iface :: iface in ifaces && (r in RulesOf(iface.policyRoutes) || ListsRule(iface.extras, r))
  }

  ghost predicate EventAsks(net: Net, m: Memory, e: Event, r: Rule) {
    if e.Sync? then AskedFor(net, e, r) else TickAsks(m.desired, r)
  }

  /** Something the agent remembers accounts for rule r. The custom entries of an interface that
      vanished stay in that memory. */
  ghost predicate Claimed(net: Net, m: Memory, r: Rule) {
    || (exists n :: n in m.managed && (Wants(net, m.managed[n], r) || r in RulesOf(m.managed[n].policyRoutes)))
    || exists n :: ListsRule(ExtrasOf(m.extras, n), r)
  }

  /** Nothing the agent remembers or watches has anything to do with rule r. */
  ghost predicate Forgotten(net: Net, m: Memory, r: Rule) {
    && (forall n | n in m.managed :: !Mentions(net, m.managed[n], r))
    && (forall iface | iface in m.desired :: !Mentions(net, iface, r))
    && forall n :: !ListsRule(ExtrasOf(m.extras, n), r)
  }

  ghost predicate WellNamed(m: Memory) {
    forall n | n in m.managed :: m.managed[n].name == n
  }

  /** The memory names everything the watchdog puts back. */
  ghost predicate Watched(m: Memory) {
    && (forall iface | iface in m.desired :: iface.name in m.managed && m.managed[iface.name] == iface)
    && (forall iface | iface in m.desired :: ExtrasOf(m.extras, iface.name) == iface.extras)
  }

  /** Event i asks for the rule, and what the agent remembers afterwards does not account for it: NAT under
      sing-box, and what a tick puts back after a failed sync. */
  ghost predicate StraysAt(net: Net, run: seq<Event>, r: Rule, i: int) {
    && 0 <= i < |run| && EventAsks(net, MemoryAfter(run[..i]), run[i], r)
    && !Claimed(net, Remember(MemoryAfter(run[..i]), run[i]), r)
  }

  ghost predicate Stray(net: Net, run: seq<Event>, r: Rule) {
    exists i :: StraysAt(net, run, r, i)
  }

  lemma StrayPush(net: Net, run: seq<Event>, r: Rule)
    requires run != []
    ensures var n := |run| - 1;
            Stray(net, run, r) <==> Stray(net, run[..n], r) || StraysAt(net, run, r, n)
  {
    hide EventAsks, Claimed, Remember, MemoryAfter;
    var n := |run| - 1;
    forall i | 0 <= i < n ensures StraysAt(net, run[..n], r, i) <==> StraysAt(net, run, r, i) {
      assert run[..n][..i] == run[..i];
    }
  }

  /** The agent's memory accounts for every copy, at most one, that the host did not have before, except for
      strays. */
  ghost predicate Accounted(net: Net, m: Memory, stray: bool, r: Rule, base: nat, c: nat) {
    || (c == base && Forgotten(net, m, r))
    || (base == 0 && c <= 1 && (c == 1 ==> stray || Claimed(net, m, r)))
  }

  // ---- one sync keeps the account ---------------------------------------------------------------

  lemma WantedByAsker(net: Net, m: Memory, e: Event, r: Rule, t: Touch)
    requires e.Sync? && DistinctNames(e.ifaces) && t in SyncTouches(net, m, e, r) && t.wants
    ensures AskedFor(net, e, r)
  {
    hide Wants, RulesOf, SyncTouches, StaleRules, ExtrasReconcile.NatList, ExtrasReconcile.RuleArgs,
         ExtrasReconcile.Copies;
    SyncTouchIn(net, m, e, r, t);
    if iface :| iface in e.ifaces && ByIface(net, m, e.driver, iface, r, t) {
      assert Asks(net, e.driver, iface, r);
    }
  }

  /** With the kernel engine, what a sync asks for is remembered. */
  lemma AskerIsClaim(net: Net, m: Memory, e: Event, r: Rule)
    requires e.Sync? && e.driver.InKernel? && DistinctNames(e.ifaces) && AskedFor(net, e, r)
    ensures Claimed(net, Remember(m, e), r)
  {
    hide Wants, RulesOf, ListsRule, ExtrasAfter, ByName;
    var iface :| iface in e.ifaces && Asks(net, e.driver, iface, r);
    var i :| 0 <= i < |e.ifaces| && e.ifaces[i] == iface;
    ByNameDistinct(e.ifaces, i);
    ExtrasAfterGives(m.extras, e.ifaces, iface.name);
    assert ListsRule(iface.extras, r) ==> ListsRule(ExtrasOf(ExtrasAfter(m.extras, e.ifaces), iface.name), r);
  }

  /** A claim nobody renews is dropped by some touch: changed NAT parameters, a dropped policy line or
      custom line, or a removed interface. */
  lemma ClaimDropped(net: Net, m: Memory, e: Event, r: Rule) returns (t: Touch)
    requires net.Valid() && WellNamed(m) && e.Sync? && Proper(m, e) && !AskedFor(net, e, r)
    requires Claimed(net, m, r) && !Claimed(net, Remember(m, e), r)
    ensures t in SyncTouches(net, m, e, r) && t.drops > 0
  {
    hide Wants, RulesOf, SyncTouches, ListsRule, AskedFor, WellNamed, ExtrasAfter, ByName, DistinctNames,
         WgDevice.Enumerates;
    if n :| n in m.managed && (Wants(net, m.managed[n], r) || r in RulesOf(m.managed[n].policyRoutes)) {
      t := ManagedClaimDropped(net, m, e, r, n);
    } else {
      var n :| ListsRule(ExtrasOf(m.extras, n), r);
      t := ListedClaimDropped(net, m, e, r, n);
    }
  }

  lemma ListedClaimDropped(net: Net, m: Memory, e: Event, r: Rule, n: string) returns (t: Touch)
    requires e.Sync? && Proper(m, e)
    requires ListsRule(ExtrasOf(m.extras, n), r) && !ListsRule(ExtrasOf(Remember(m, e).extras, n), r)
    ensures t in SyncTouches(net, m, e, r) && t.drops > 0
  {
    hide NatTouch, PolicyRuleTouch, SyncTouches, ExtrasReconcile.NatList, ExtrasReconcile.RuleArgs, ByName,
         ExtrasAfter, WgDevice.Enumerates;
    ExtrasAfterGives(m.extras, e.ifaces, n);
    var iface :| iface in e.ifaces && iface.name == n;
    t := ExtrasReconcile.NatLineTouch(ExtrasOf(m.extras, n).natLines, iface.extras.natLines, r);
    assert ByIface(net, m, e.driver, iface, r, t);
    SyncTouchIn(net, m, e, r, t);
  }

  lemma ManagedClaimDropped(net: Net, m: Memory, e: Event, r: Rule, n: string) returns (t: Touch)
    requires net.Valid() && WellNamed(m) && e.Sync? && Proper(m, e)
    requires n in m.managed && (Wants(net, m.managed[n], r) || r in RulesOf(m.managed[n].policyRoutes))
    requires !AskedFor(net, e, r)
    ensures t in SyncTouches(net, m, e, r) && t.drops > 0
  {
    hide Owns, NatEnabled, NatParamsDiffer, RulesOf, SyncTouches, StaleRules, ExtrasReconcile.NatLineTouch;
    var was := m.managed[n];
    if n in ByName(Driven(e.driver, e.ifaces)) {
      var iface := ByName(e.ifaces)[n];
      assert !Asks(net, e.driver, iface, r);
      if Wants(net, was, r) {
        DroppedRuleIsTorn(net, was, iface, r);
        t := NatTouch(net, was, iface, r);
      } else {
        DroppedForwardIsDeleted(was.policyRoutes, iface.policyRoutes, r);
        t := PolicyRuleTouch(was.policyRoutes, iface.policyRoutes, r);
      }
      assert ByIface(net, m, e.driver, iface, r, t);
    } else {
      assert n in e.order;
      if Wants(net, was, r) {
        EgressHasName(net, was, r);
        t := TeardownTouch(net, was, r);
      } else {
        t := RemoveRuleTouch(was.policyRoutes, r);
      }
      assert ByStale(net, m, n, r, t);
    }
    SyncTouchIn(net, m, e, r, t);
  }

  lemma NothingManaged(net: Net, r: Rule)
    ensures !NatEnabled(NO_INTERFACE) && RulesOf("") == []
  {
    EmptyTextHasNoLines();
  }

  lemma IdleIface(net: Net, m: Memory, d: Driver, iface: Interface, r: Rule, t: Touch)
    requires Forgotten(net, m, r) && !Mentions(net, iface, r) && ByIface(net, m, d, iface, r, t)
    ensures t == NOTHING
  {
    hide Owns, NatEnabled, NatParamsDiffer, RulesOf, StaleRules, PolicyRuleTouch, ExtrasReconcile.NatList,
         ExtrasReconcile.RuleArgs;
    NothingManaged(net, r);
    var was := Lookup(m.managed, iface.name);
    assert r !in RulesOf(was.policyRoutes);
    assert !ListsRule(ExtrasOf(m.extras, iface.name), r);
    DroppedForwardIsDeleted(was.policyRoutes, iface.policyRoutes, r);
  }

  lemma IdleStale(net: Net, m: Memory, n: string, r: Rule, t: Touch)
    requires Forgotten(net, m, r) && n in m.managed && ByStale(net, m, n, r, t)
    ensures t == NOTHING
  {
    hide Owns, RulesOf;
    assert !Mentions(net, m.managed[n], r);
  }

  /** A sync in which nobody mentions the rule, before or now, never touches it. */
  lemma UnmentionedUntouched(net: Net, m: Memory, e: Event, r: Rule, c: nat)
    requires e.Sync? && Proper(m, e) && Forgotten(net, m, r)
    requires forall iface | iface in e.ifaces :: !Mentions(net, iface, r)
    ensures Fold(c, SyncTouches(net, m, e, r)) == c
  {
    hide Mentions, SyncTouches, ByIface, ByStale, Forgotten;
    var ts := SyncTouches(net, m, e, r);
    forall i | 0 <= i < |ts| ensures ts[i] == NOTHING {
      SyncTouchIn(net, m, e, r, ts[i]);
      if iface :| iface in e.ifaces && ByIface(net, m, e.driver, iface, r, ts[i]) {
        IdleIface(net, m, e.driver, iface, r, ts[i]);
      } else {
        var n :| n in e.order && ByStale(net, m, n, r, ts[i]);
        IdleStale(net, m, n, r, ts[i]);
      }
    }
    FoldUntouched(c, ts);
  }

  lemma StillForgotten(net: Net, m: Memory, e: Event, r: Rule)
    requires e.Sync? && Proper(m, e) && Forgotten(net, m, r)
    requires forall iface | iface in e.ifaces :: !Mentions(net, iface, r)
    ensures Forgotten(net, Remember(m, e), r)
  {
    hide Owns, RulesOf, ListsRule, ExtrasAfter;
    var after := Remember(m, e);
    forall n ensures !ListsRule(ExtrasOf(after.extras, n), r) {
      ExtrasAfterGives(m.extras, e.ifaces, n);
      if iface :| iface in e.ifaces && iface.name == n { assert !Mentions(net, iface, r); }
    }
  }

  lemma AccountedSync(net: Net, m: Memory, e: Event, stray: bool, r: Rule, base: nat, c: nat)
    requires net.Valid() && WellNamed(m) && e.Sync? && Proper(m, e) && !OverlayShape(r)
    requires Accounted(net, m, stray, r, base, c)
    requires (exists iface :: iface in e.ifaces && Mentions(net, iface, r)) ==> base == 0
    ensures Accounted(net, Remember(m, e), stray || (AskedFor(net, e, r) && !Claimed(net, Remember(m, e), r)), r, base,
                      CopiesAfterEvent(net, m, e, r, c))
  {
    hide Mentions, SyncTouches, CopiesAfterEvent, OverlayShape, Claimed, Forgotten, Remember, AskedFor;
    SyncIsFold(net, m, e, r, c);
    if Forgotten(net, m, r) && c == base && !exists iface :: iface in e.ifaces && Mentions(net, iface, r) {
      UnmentionedUntouched(net, m, e, r, c);
      StillForgotten(net, m, e, r);
    } else {
      ReclaimedOrGone(net, m, e, stray, r, c);
    }
  }

  lemma ReclaimedOrGone(net: Net, m: Memory, e: Event, stray: bool, r: Rule, c: nat)
    requires net.Valid() && WellNamed(m) && e.Sync? && Proper(m, e)
    requires c <= 1 && (c == 1 ==> stray || Claimed(net, m, r))
    ensures Fold(c, SyncTouches(net, m, e, r)) <= 1
    ensures Fold(c, SyncTouches(net, m, e, r)) == 1 ==> stray || AskedFor(net, e, r) || Claimed(net, Remember(m, e), r)
  {
    hide SyncTouches, Claimed, Remember, AskedFor;
    var ts := SyncTouches(net, m, e, r);
    FoldAtMostOne(c, ts);
    if !Claimed(net, Remember(m, e), r) && !AskedFor(net, e, r) {
      forall t | t in ts ensures !t.wants {
        if t.wants { WantedByAsker(net, m, e, r, t); }
      }
      FoldUnwanted(c, ts);
      if c == 1 && !stray {
        var t := ClaimDropped(net, m, e, r);
        FoldDropped(c, ts, t);
      }
    }
  }

  // ---- every run --------------------------------------------------------------------------------

  lemma WellNamedSync(m: Memory, e: Event)
    requires e.Sync?
    ensures WellNamed(Remember(m, e))
  {
    hide ExtrasAfter;
  }

  /** A successful sync with the kernel engine remembers all that the watchdog will put back. */
  lemma WatchedSync(m: Memory, e: Event)
    requires e.Sync? && e.driver.InKernel? && Proper(m, e)
    ensures Watched(Remember(m, e))
  {
    hide ExtrasAfter, ByName;
    forall iface | iface in e.ifaces
      ensures iface.name in ByName(e.ifaces) && ByName(e.ifaces)[iface.name] == iface
      ensures ExtrasOf(ExtrasAfter(m.extras, e.ifaces), iface.name) == iface.extras
    {
      var i :| 0 <= i < |e.ifaces| && e.ifaces[i] == iface;
      ByNameDistinct(e.ifaces, i);
      ExtrasAfterGives(m.extras, e.ifaces, iface.name);
    }
  }

  lemma {:induction false} TickTouchIn(ifaces: seq<Interface>, r: Rule, t: Touch)
    ensures t in TickTouches(ifaces, r) <==>
            exists iface :: iface in ifaces && (t == Touch(0, r in RulesOf(iface.policyRoutes))
                                                || t == Touch(0, ListsRule(iface.extras, r)))
  {
    hide RulesOf, ListsRule;
    if ifaces != [] {
      assert ifaces == ifaces[..|ifaces| - 1] + [ifaces[|ifaces| - 1]];
      TickTouchIn(ifaces[..|ifaces| - 1], r, t);
    }
  }

  /** A tick only adds: what it asks for is there afterwards, the rest is as before. */
  lemma TickGives(ifaces: seq<Interface>, r: Rule, c: nat)
    ensures TickAsks(ifaces, r) ==> Fold(c, TickTouches(ifaces, r)) == Max(1, c)
    ensures !TickAsks(ifaces, r) ==> Fold(c, TickTouches(ifaces, r)) == c
  {
    hide RulesOf, ListsRule, TickTouches;
    var ts := TickTouches(ifaces, r);
    forall i | 0 <= i < |ts| ensures ts[i].drops == 0 && (ts[i].wants ==> TickAsks(ifaces, r)) {
      TickTouchIn(ifaces, r, ts[i]);
    }
    OnlyAdding(c, ts);
    if TickAsks(ifaces, r) {
      var iface :| iface in ifaces && (r in RulesOf(iface.policyRoutes) || ListsRule(iface.extras, r));
      TickTouchIn(ifaces, r, Touch(0, true));
      var i :| 0 <= i < |ts| && ts[i] == Touch(0, true);
    }
  }

  lemma {:induction false} OnlyAdding(c: nat, ts: seq<Touch>)
    requires forall i | 0 <= i < |ts| :: ts[i].drops == 0
    ensures Fold(c, ts) == if exists i :: 0 <= i < |ts| && ts[i].wants then Max(1, c) else c
  {
    if ts != [] {
      OnlyAdding(c, ts[..|ts| - 1]);
    }
  }

  lemma AccountedTick(net: Net, m: Memory, e: Event, stray: bool, r: Rule, base: nat, c: nat)
    requires e.Tick? && Accounted(net, m, stray, r, base, c)
    ensures Accounted(net, m, stray || (TickAsks(m.desired, r) && !Claimed(net, m, r)), r, base,
                      CopiesAfterEvent(net, m, e, r, c))
  {
    hide Wants, RulesOf, ListsRule, Owns, TickTouches, Claimed;
    TickGives(m.desired, r, c);
    if TickAsks(m.desired, r) {
      var iface :| iface in m.desired && (r in RulesOf(iface.policyRoutes) || ListsRule(iface.extras, r));
      assert Mentions(net, iface, r);
    }
  }

  /** Some configuration of the run mentions the rule. */
  ghost predicate Seen(net: Net, run: seq<Event>, r: Rule) {
    exists i, iface :: 0 <= i < |run| && run[i].Sync? && iface in run[i].ifaces && Mentions(net, iface, r)
  }

  lemma ProperPrefix(run: seq<Event>)
    requires run != [] && ProperRun(run)
    ensures ProperRun(run[..|run| - 1]) && Proper(MemoryAfter(run[..|run| - 1]), run[|run| - 1])
  {
    hide Proper, MemoryAfter;
    var init := run[..|run| - 1];
    forall i | 0 <= i < |init| ensures Proper(MemoryAfter(init[..i]), init[i]) {
      assert run[..i] == init[..i];
    }
  }

  lemma SeenPrefix(net: Net, run: seq<Event>, r: Rule)
    requires run != []
    ensures Seen(net, run[..|run| - 1], r) ==> Seen(net, run, r)
    ensures var last := run[|run| - 1];
            last.Sync? && (exists iface :: iface in last.ifaces && Mentions(net, iface, r)) ==> Seen(net, run, r)
  {
    hide Mentions;
    var init := run[..|run| - 1];
    if Seen(net, init, r) {
      var i, iface :| 0 <= i < |init| && init[i].Sync? && iface in init[i].ifaces && Mentions(net, iface, r);
      assert run[i].Sync? && iface in run[i].ifaces;
    }
  }

  /** Whatever configurations a run went through, under whatever engine and with whatever failures, the memory
      of the agent accounts for what it left on the host, except for strays. */
  lemma {:induction false} RunAccounted(net: Net, run: seq<Event>, r: Rule, base: nat)
    requires net.Valid() && ProperRun(run) && !OverlayShape(r)
    requires Seen(net, run, r) ==> base == 0
    ensures WellNamed(MemoryAfter(run))
    ensures Accounted(net, MemoryAfter(run), Stray(net, run, r), r, base, CopiesAfterRun(net, run, r, base))
  {
    hide Mentions, OverlayShape, CopiesAfterEvent, Remember, ProperRun, Proper, Seen, WellNamed, Accounted, Stray,
         AskedFor, TickAsks, Claimed;
    if run == [] {
      NothingAccounted(net, r, base);
    } else {
      var init, last := run[..|run| - 1], run[|run| - 1];
      ProperPrefix(run);
      SeenPrefix(net, run, r);
      RunAccounted(net, init, r, base);
      StrayPush(net, run, r);
      var c := CopiesAfterRun(net, init, r, base);
      if last.Sync? {
        WellNamedSync(MemoryAfter(init), last);
        AccountedSync(net, MemoryAfter(init), last, Stray(net, init, r), r, base, c);
      } else {
        AccountedTick(net, MemoryAfter(init), last, Stray(net, init, r), r, base, c);
        TickRemembers(MemoryAfter(init), last);
      }
    }
  }

  lemma NothingAccounted(net: Net, r: Rule, base: nat)
    ensures WellNamed(MemoryAfter([])) && Accounted(net, MemoryAfter([]), Stray(net, [], r), r, base, base)
  {
    EmptyLists();
  }

  lemma TickRemembers(m: Memory, e: Event)
    requires e.Tick?
    ensures Remember(m, e) == m
  {
  }

  ghost predicate AllKernel(run: seq<Event>) {
    forall i | 0 <= i < |run| && run[i].Sync? :: run[i].driver.InKernel?
  }

  lemma {:induction false} KernelRunsWatch(run: seq<Event>)
    requires ProperRun(run) && AllKernel(run)
    ensures Watched(MemoryAfter(run))
  {
    hide Remember, ProperRun, Proper, Watched;
    if run == [] {
      NothingWatched();
    } else {
      var n := |run| - 1;
      ProperPrefix(run);
      assert forall i | 0 <= i < n :: run[..n][i] == run[i];
      KernelRunsWatch(run[..n]);
      if run[n].Sync? { WatchedSync(MemoryAfter(run[..n]), run[n]); } else { TickRemembers(MemoryAfter(run[..n]),
          run[n]); }
    }
  }

  lemma NothingWatched()
    ensures Watched(MemoryAfter([]))
  {
  }

  lemma ProperTake(run: seq<Event>, n: nat)
    requires ProperRun(run) && n <= |run|
    ensures ProperRun(run[..n]) && (AllKernel(run) ==> AllKernel(run[..n]))
    ensures n < |run| ==> Proper(MemoryAfter(run[..n]), run[n])
  {
    hide Proper, MemoryAfter;
    forall i | 0 <= i < n ensures Proper(MemoryAfter(run[..n][..i]), run[..n][i]) {
      assert run[..n][..i] == run[..i];
    }
  }

  /** Under the kernel engine nothing strays: the memory accounts for every copy. */
  lemma KernelRunsTrack(net: Net, run: seq<Event>, r: Rule)
    requires ProperRun(run) && AllKernel(run)
    ensures !Stray(net, run, r)
  {
    hide Remember, ProperRun, Proper, AskedFor, TickAsks, Claimed, Watched, MemoryAfter;
    forall i | 0 <= i < |run| ensures !StraysAt(net, run, r, i) {
      var m := MemoryAfter(run[..i]);
      ProperTake(run, i);
      KernelRunsWatch(run[..i]);
      if run[i].Sync? {
        DistinctOf(m, run[i]);
        if AskedFor(net, run[i], r) { AskerIsClaim(net, m, run[i], r); }
      } else {
        TickRemembers(m, run[i]);
        if TickAsks(m.desired, r) { WatchedIsClaimed(net, m, r); }
      }
    }
  }

  lemma DistinctOf(m: Memory, e: Event)
    requires e.Sync? && Proper(m, e)
    ensures DistinctNames(e.ifaces)
  {
  }

  lemma WatchedIsClaimed(net: Net, m: Memory, r: Rule)
    requires Watched(m) && TickAsks(m.desired, r)
    ensures Claimed(net, m, r)
  {
    hide Wants, RulesOf, ListsRule;
    var iface :| iface in m.desired && (r in RulesOf(iface.policyRoutes) || ListsRule(iface.extras, r));
    assert ListsRule(iface.extras, r) ==> ListsRule(ExtrasOf(m.extras, iface.name), r);
  }
}
