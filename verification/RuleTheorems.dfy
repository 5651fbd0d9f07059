/** What whole runs of syncs and ticks guarantee about firewall rules, and where the guarantee stops. */
module RuleTheorems {
  import opened Host
  import opened Types
  import opened Counts
  import opened Nat
  import opened Policy
  import opened KernelEngine
  import opened SyncEffects
  import opened RuleRuns
  import Overlay
  import ExtrasReconcile
  import WgDevice

  ghost predicate NatWanted(net: Net, ifaces: seq<Interface>, r: Rule) {
    exists iface :: iface in ifaces && Wants(net, iface, r)
  }

  // ---- the phases of one sync -------------------------------------------------------------------

  /** Copies of r when ensureNAT is done: the engine, then NAT again. */
  ghost function AfterNat(net: Net, m: Memory, e: Event, r: Rule, c: nat): nat
    requires e.Sync?
  {
    Fold(Fold(c, ApplyTouches(net, m.managed, Driven(e.driver, e.ifaces), e.order, r)),
         NatEnsureTouches(net, e.ifaces, r))
  }

  lemma SyncPhases(net: Net, m: Memory, e: Event, r: Rule, c: nat)
    requires e.Sync? && !OverlayShape(r)
    ensures CopiesAfterEvent(net, m, e, r, c) == Fold(AfterNat(net, m, e, r, c),
                                                      ExtrasRuleTouches(m.extras, e.ifaces, r))
  {
    hide Fold, ApplyTouches, NatEnsureTouches, ExtrasRuleTouches, Overlay.CopiesAfter, OverlayShape;
    var a := Fold(c, ApplyTouches(net, m.managed, Driven(e.driver, e.ifaces), e.order, r));
    OverlayLeavesAlone(m.vxlan, e.links, r, a);
    OverlayLeavesAlone(m.vxlan, e.links, r, Fold(AfterNat(net, m, e, r, c), ExtrasRuleTouches(m.extras, e.ifaces, r)));
  }

  /** ensureNAT closes whatever gap the engine left: a wanted rule is present, others are as it left them. */
  lemma EnsureNatCloses(net: Net, ifaces: seq<Interface>, r: Rule, c: nat)
    requires c <= 1
    ensures Fold(c, NatEnsureTouches(net, ifaces, r)) == if NatWanted(net, ifaces, r) then 1 else c
  {
    hide Wants, NatEnsureTouches;
    var ts := NatEnsureTouches(net, ifaces, r);
    forall t | t in ts ensures t.drops == 0 && (t.wants ==> NatWanted(net, ifaces, r)) {
      EnsureTouchIn(net, ifaces, r, t);
    }
    FoldAtMostOne(c, ts);
    FoldKept(c, ts);
    if NatWanted(net, ifaces, r) {
      EnsureTouchIn(net, ifaces, r, Touch(0, true));
    }
  }

  // The custom phase.

  /** The interface had the rule as a custom NAT line when it was visited last and has it no more. */
  predicate JustDropped(x: ExtrasMap, iface: Interface, r: Rule) {
    ListsRule(ExtrasOf(x, iface.name), r) && !ListsRule(iface.extras, r)
  }

  ghost predicate ListsLast(x: ExtrasMap, ifaces: seq<Interface>, r: Rule, i: int) {
    0 <= i < |ifaces| && ListsRule(ifaces[i].extras, r) && forall j | i < j < |ifaces| :: !JustDropped(x, ifaces[j], r)
  }

  /** Some interface lists the rule and no later one just dropped it, or it was there and none just dropped
      it. */
  ghost predicate CustomLeaves(x: ExtrasMap, ifaces: seq<Interface>, r: Rule, c: nat) {
    || (exists i :: ListsLast(x, ifaces, r, i))
    || (c == 1 && forall j | 0 <= j < |ifaces| :: !JustDropped(x, ifaces[j], r))
  }

  /** The custom phase leaves a present rule there. */
  ghost predicate CustomKeeps(x: ExtrasMap, ifaces: seq<Interface>, r: Rule) { CustomLeaves(x, ifaces, r, 1) }

  lemma CustomPush(x: ExtrasMap, ifaces: seq<Interface>, r: Rule, c: nat)
    requires ifaces != []
    ensures var init, last := ifaces[..|ifaces| - 1], ifaces[|ifaces| - 1];
            CustomLeaves(x, ifaces, r, c) <==>
              ListsRule(last.extras, r) || (!JustDropped(x, last, r) && CustomLeaves(x, init, r, c))
  {
    hide ListsRule;
    var m := |ifaces| - 1;
    var init, last := ifaces[..m], ifaces[m];
    assert forall i | 0 <= i < m :: init[i] == ifaces[i];
    if ListsRule(last.extras, r) { assert ListsLast(x, ifaces, r, m); }
    if i :| ListsLast(x, ifaces, r, i) {
      if i < m { assert ListsLast(x, init, r, i); }
    }
    if !JustDropped(x, last, r) {
      if i :| ListsLast(x, init, r, i) { assert ListsLast(x, ifaces, r, i); }
    }
  }

  lemma {:induction false} CustomPhase(x: ExtrasMap, ifaces: seq<Interface>, r: Rule, c: nat)
    requires DistinctNames(ifaces) && c <= 1
    ensures Fold(c, ExtrasRuleTouches(x, ifaces, r)) == if CustomLeaves(x, ifaces, r, c) then 1 else 0
  {
    hide ListsRule, ExtrasReconcile.NatLineTouch, ExtrasAfter, CustomLeaves;
    if ifaces == [] {
      NoneLists(x, r, c);
    } else {
      var init, last := ifaces[..|ifaces| - 1], ifaces[|ifaces| - 1];
      assert ifaces == init + [last];
      CustomPhase(x, init, r, c);
      CustomPush(x, ifaces, r, c);
      ExtrasAfterGives(x, init, last.name);
      assert ExtrasRuleTouch(ExtrasAfter(x, init), last, r) == ExtrasRuleTouch(x, last, r);
      ListingTouch(x, last, r);
      FoldPush(c, ExtrasRuleTouches(x, init, r), ExtrasRuleTouch(x, last, r));
    }
  }

  lemma NoneLists(x: ExtrasMap, r: Rule, c: nat)
    requires c <= 1
    ensures CustomLeaves(x, [], r, c) <==> c == 1
    ensures Fold(c, ExtrasRuleTouches(x, [], r)) == c
  {
    assert forall i :: !ListsLast(x, [], r, i);
  }

  lemma ListingTouch(m: ExtrasMap, iface: Interface, r: Rule)
    ensures var t := ExtrasRuleTouch(m, iface, r);
            && (t.wants <==> ListsRule(iface.extras, r))
            && (!t.wants ==> (t.drops > 0 <==> ListsRule(ExtrasOf(m, iface.name), r)))
  {
    hide ExtrasReconcile.NatList, ExtrasReconcile.RuleArgs, ExtrasReconcile.Copies;
  }

  /** What one sync leaves of any rule, under any engine and whether it failed or not: the custom phase has
      the last word. */
  lemma CustomPresentIff(net: Net, m: Memory, e: Event, r: Rule, c: nat)
    requires e.Sync? && Proper(m, e) && c <= 1 && !OverlayShape(r)
    ensures AfterNat(net, m, e, r, c) <= 1
    ensures CopiesAfterEvent(net, m, e, r, c) == if CustomLeaves(m.extras, e.ifaces, r, AfterNat(net, m, e, r, c))
            then 1 else 0
  {
    hide ApplyTouches, NatEnsureTouches, ExtrasRuleTouches, CopiesAfterEvent, CustomLeaves, OverlayShape,
         WgDevice.Enumerates, DistinctNames;
    SyncPhases(net, m, e, r, c);
    var a := Fold(c, ApplyTouches(net, m.managed, Driven(e.driver, e.ifaces), e.order, r));
    FoldAtMostOne(c, ApplyTouches(net, m.managed, Driven(e.driver, e.ifaces), e.order, r));
    FoldAtMostOne(a, NatEnsureTouches(net, e.ifaces, r));
    CustomPhase(m.extras, e.ifaces, r, AfterNat(net, m, e, r, c));
  }

  /** A wanted masquerading or forwarding rule is present after a sync, whatever the engine did and whether it
      failed or not, exactly when some interface lists it as a custom NAT line and no later one just
      dropped that line, or none just dropped it: dropping comes after NAT was put in place. */
  lemma NatPresentIff(net: Net, m: Memory, e: Event, r: Rule, c: nat)
    requires e.Sync? && Proper(m, e) && c <= 1 && !OverlayShape(r) && NatWanted(net, e.ifaces, r)
    ensures CopiesAfterEvent(net, m, e, r, c) == if CustomKeeps(m.extras, e.ifaces, r) then 1 else 0
  {
    hide NatWanted, ApplyTouches, NatEnsureTouches, CopiesAfterEvent, CustomLeaves, OverlayShape, Proper;
    CustomPresentIff(net, m, e, r, c);
    FoldAtMostOne(c, ApplyTouches(net, m.managed, Driven(e.driver, e.ifaces), e.order, r));
    EnsureNatCloses(net, e.ifaces, r, Fold(c, ApplyTouches(net, m.managed, Driven(e.driver, e.ifaces), e.order, r)));
  }

  // ---- whole runs -------------------------------------------------------------------------------

  lemma NothingListed(r: Rule)
    ensures !ListsRule(NO_EXTRAS, r)
  {
    EmptyLists();
  }

  lemma AppendedEvent(net: Net, run: seq<Event>, e: Event, r: Rule, base: nat)
    ensures (run + [e])[..|run|] == run
    ensures MemoryAfter(run + [e]) == Remember(MemoryAfter(run), e)
    ensures CopiesAfterRun(net, run + [e], r, base) == CopiesAfterEvent(net, MemoryAfter(run), e, r,
            CopiesAfterRun(net, run, r, base))
    ensures ProperRun(run + [e]) ==> ProperRun(run) && Proper(MemoryAfter(run), e)
    ensures Seen(net, run, r) ==> Seen(net, run + [e], r)
  {
    hide Remember, CopiesAfterEvent, Mentions, Proper;
    assert (run + [e])[..|run|] == run;
    if ProperRun(run + [e]) { ProperPrefix(run + [e]); }
    SeenPrefix(net, run + [e], r);
  }

  lemma AppendedStray(net: Net, run: seq<Event>, e: Event, r: Rule)
    ensures var m := MemoryAfter(run);
            Stray(net, run + [e], r) <==> Stray(net, run, r) || (EventAsks(net, m, e, r)
                                                                 && !Claimed(net, Remember(m, e), r))
  {
    hide Remember, EventAsks, Claimed, MemoryAfter;
    assert (run + [e])[..|run|] == run && (run + [e])[|run|] == e;
    StrayPush(net, run + [e], r);
  }

  lemma MentionedIsSeen(net: Net, run: seq<Event>, e: Event, iface: Interface, r: Rule)
    requires e.Sync? && iface in e.ifaces && Mentions(net, iface, r)
    ensures Seen(net, run + [e], r)
  {
    hide Mentions;
    assert (run + [e])[|run|] == e;
  }

  /** NAT or the watchdog of the configuration wants the rule. */
  ghost predicate Wished(net: Net, ifaces: seq<Interface>, r: Rule) {
    NatWanted(net, ifaces, r) || TickAsks(ifaces, r)
  }

  lemma WishedIsSeen(net: Net, run: seq<Event>, e: Event, r: Rule)
    requires e.Sync? && Wished(net, e.ifaces, r)
    ensures Seen(net, run + [e], r)
  {
    hide Owns, RulesOf, ListsRule, Seen;
    var iface :| iface in e.ifaces && Mentions(net, iface, r);
    MentionedIsSeen(net, run, e, iface, r);
  }

  lemma AskedIsWished(net: Net, e: Event, r: Rule)
    requires e.Sync?
    ensures NatWanted(net, e.ifaces, r) ==> AskedFor(net, e, r)
    ensures AskedFor(net, e, r) ==> Wished(net, e.ifaces, r)
    ensures e.driver.InKernel? && Wished(net, e.ifaces, r) ==> AskedFor(net, e, r)
  {
    hide Wants, RulesOf, ListsRule;
    if iface :| iface in e.ifaces && Asks(net, e.driver, iface, r) { }
    if TickAsks(e.ifaces, r) {
      var iface :| iface in e.ifaces && (r in RulesOf(iface.policyRoutes) || ListsRule(iface.extras, r));
      assert e.driver.InKernel? ==> Asks(net, e.driver, iface, r);
    }
    if NatWanted(net, e.ifaces, r) {
      var iface :| iface in e.ifaces && Wants(net, iface, r);
      assert Asks(net, e.driver, iface, r);
    }
  }

  /** Whole-run NAT exactness. After every sync of any run, under whatever engine and with whatever failures,
      the host holds its own copies of a rule (none, once a configuration mentions it) plus exactly one if
      some desired interface wants it as a NAT rule, whichever interfaces shared it, unless a custom line
      that spells it was just dropped. A rule the sync does not ask for is as the host had it exactly when
      it already was or the sync drops it, which is so when nothing strayed and no vanished interface left
      it behind. */
  lemma NatExact(net: Net, run: seq<Event>, e: Event, r: Rule, base: nat)
    requires net.Valid() && e.Sync? && ProperRun(run + [e]) && !OverlayShape(r)
    requires Seen(net, run + [e], r) ==> base == 0
    ensures var m, c, c' := MemoryAfter(run), CopiesAfterRun(net, run, r, base),
            CopiesAfterRun(net, run + [e], r, base);
            && (NatWanted(net, e.ifaces, r) ==> c' == base + if CustomKeeps(m.extras, e.ifaces, r) then 1 else 0)
            && (!AskedFor(net, e, r) ==> (c' == base <==> c == base || Dropped(net, m, e, r)))
            && (!AskedFor(net, e, r) && NoLeftover(m, e.ifaces, r) && !Stray(net, run, r) ==> c' == base)
  {
    hide CopiesAfterEvent, OverlayShape, Mentions, WellNamed, ProperRun, Seen, CustomLeaves, NatWanted, AskedFor,
         Dropped, Stray, NoLeftover, Claimed,
         Forgotten;
    AppendedEvent(net, run, e, r, base);
    AppendedStray(net, run, e, r);
    RunAccounted(net, run, r, base);
    RunAccounted(net, run + [e], r, base);
    AskedIsWished(net, e, r);
    var m, c := MemoryAfter(run), CopiesAfterRun(net, run, r, base);
    if NatWanted(net, e.ifaces, r) {
      WishedIsSeen(net, run, e, r);
      NatPresentIff(net, m, e, r, c);
    } else if !AskedFor(net, e, r) {
      UnaskedExactIff(net, run, e, r, base);
      if NoLeftover(m, e.ifaces, r) { UnaskedUnclaimed(net, m, e, r); }
    }
  }

  /** A rule some interface lists as a custom NAT line is there after every sync of any run, under whatever engine
      and with whatever failures, exactly when no interface after its last lister just dropped it. */
  lemma CustomExact(net: Net, run: seq<Event>, e: Event, r: Rule, base: nat)
    requires net.Valid() && e.Sync? && ProperRun(run + [e]) && !OverlayShape(r)
    requires exists iface :: iface in e.ifaces && ListsRule(iface.extras, r)
    requires Seen(net, run + [e], r) ==> base == 0
    ensures var x := MemoryAfter(run).extras;
            CopiesAfterRun(net, run + [e], r, base) == if exists i :: ListsLast(x, e.ifaces, r, i) then 1 else 0
  {
    hide CopiesAfterEvent, OverlayShape, Mentions, WellNamed, ProperRun, Seen, ListsRule, Stray, Claimed, Forgotten,
         AfterNat, MemoryAfter;
    AppendedEvent(net, run, e, r, base);
    RunAccounted(net, run, r, base);
    var iface :| iface in e.ifaces && ListsRule(iface.extras, r);
    ListedIsSeen(net, run, e, iface, r);
    CustomPresentIff(net, MemoryAfter(run), e, r, CopiesAfterRun(net, run, r, base));
    var i :| 0 <= i < |e.ifaces| && e.ifaces[i] == iface;
    assert (forall j | 0 <= j < |e.ifaces| :: !JustDropped(MemoryAfter(run).extras, e.ifaces[j], r))
           ==> ListsLast(MemoryAfter(run).extras, e.ifaces, r, i);
  }

  lemma ListedIsSeen(net: Net, run: seq<Event>, e: Event, iface: Interface, r: Rule)
    requires e.Sync? && iface in e.ifaces && ListsRule(iface.extras, r)
    ensures Seen(net, run + [e], r)
  {
    hide Owns, RulesOf, ListsRule, Seen;
    MentionedIsSeen(net, run, e, iface, r);
  }

  /** No interface outside the configuration still has the rule in the memory of custom entries. */
  ghost predicate NoLeftover(m: Memory, ifaces: seq<Interface>, r: Rule) {
    forall n | n !in ByName(ifaces) :: !ListsRule(ExtrasOf(m.extras, n), r)
  }

  lemma UnaskedUnclaimed(net: Net, m: Memory, e: Event, r: Rule)
    requires e.Sync? && Proper(m, e) && NoLeftover(m, e.ifaces, r) && !AskedFor(net, e, r)
    ensures !Claimed(net, Remember(m, e), r)
  {
    hide Wants, RulesOf, ListsRule, ExtrasAfter, DistinctNames, WgDevice.Enumerates;
    forall n ensures !ListsRule(ExtrasOf(Remember(m, e).extras, n), r) {
      ExtrasAfterGives(m.extras, e.ifaces, n);
      if n in ByName(e.ifaces) {
        var iface := ByName(e.ifaces)[n];
        assert iface in e.ifaces && iface.name == n && !Asks(net, e.driver, iface, r);
      }
    }
    forall n | n in Remember(m, e).managed ensures !Asks(net, e.driver, Remember(m, e).managed[n], r) { }
  }

  /** The rule stands after a successful sync and one tick: a policy or custom line asks for it, or NAT wants
      it and no custom line that spells it was just dropped. */
  ghost predicate Stands(net: Net, m: Memory, ifaces: seq<Interface>, r: Rule) {
    TickAsks(ifaces, r) || (NatWanted(net, ifaces, r) && CustomKeeps(m.extras, ifaces, r))
  }

  lemma TickEvent(net: Net, m: Memory, tick: Event, r: Rule, c: nat)
    requires tick.Tick?
    ensures Remember(m, tick) == m
    ensures CopiesAfterEvent(net, m, tick, r, c) == if TickAsks(m.desired, r) then Max(1, c) else c
  {
    hide TickAsks, TickTouches;
    TickGives(m.desired, r, c);
  }

  lemma DesiredOf(m: Memory, e: Event)
    requires e.Sync?
    ensures Remember(m, e).desired == if e.driver.Succeeds() then e.ifaces else m.desired
  {
  }

  /** A successful sync and one watchdog tick, after any run in which nothing strayed: the host holds its own
      copies plus exactly one of every rule the newest configuration stands for, although its interfaces may
      have deleted each other's rules on the way. */
  lemma TickedExact(net: Net, run: seq<Event>, e: Event, tick: Event, r: Rule, base: nat)
    requires net.Valid() && e.Sync? && e.driver.Succeeds() && tick.Tick? && ProperRun(run + [e]) && !OverlayShape(r)
    requires Seen(net, run + [e], r) ==> base == 0
    requires NoLeftover(MemoryAfter(run), e.ifaces, r) && !Stray(net, run, r)
    ensures CopiesAfterRun(net, run + [e] + [tick], r, base)
            == base + if Stands(net, MemoryAfter(run), e.ifaces, r) then 1 else 0
  {
    hide CopiesAfterEvent, OverlayShape, NatWanted, TickAsks, NoLeftover, ProperRun, Claimed, Forgotten, WellNamed,
         AskedFor, Stray,
         CustomLeaves, Seen, Dropped;
    AppendedEvent(net, run, e, r, base);
    AppendedEvent(net, run + [e], tick, r, base);
    AppendedStray(net, run, e, r);
    RunAccounted(net, run, r, base);
    RunAccounted(net, run + [e], r, base);
    NatExact(net, run, e, r, base);
    DesiredOf(MemoryAfter(run), e);
    AskedIsWished(net, e, r);
    TickEvent(net, MemoryAfter(run + [e]), tick, r, CopiesAfterRun(net, run + [e], r, base));
    if Wished(net, e.ifaces, r) { WishedIsSeen(net, run, e, r); }
  }

  // ---- rules nobody asks for --------------------------------------------------------------------

  /** The pass over this interface deletes rule r unless the interface asks for it: changed NAT parameters or
      a policy line it had before, which are the kernel engine's, or a custom line. */
  ghost predicate Drops(net: Net, m: Memory, d: Driver, iface: Interface, r: Rule) {
    var was := Lookup(m.managed, iface.name);
    || (d.InKernel? && ((Torn(was, iface) && Clears(net, was, r)) || r in RulesOf(was.policyRoutes)))
    || ListsRule(ExtrasOf(m.extras, iface.name), r)
  }

  /** The sync deletes rule r, if it does not ask for it: because of a desired interface, or because the kernel
      engine managed an interface that it leaves. The custom lines of a vanished interface are not among what
      it looks at. */
  ghost predicate Dropped(net: Net, m: Memory, e: Event, r: Rule)
    requires e.Sync?
  {
    || (exists iface :: iface in e.ifaces && Drops(net, m, e.driver, iface, r))
    || exists n :: n in StaleNames(m.managed, Driven(e.driver, e.ifaces))
                   && (Clears(net, m.managed[n], r) || r in RulesOf(m.managed[n].policyRoutes))
  }

  lemma UnaskedTouch(net: Net, m: Memory, d: Driver, iface: Interface, r: Rule, t: Touch)
    requires !Asks(net, d, iface, r) && ByIface(net, m, d, iface, r, t)
    ensures t.drops > 0 ==> Drops(net, m, d, iface, r)
  {
    hide Owns, NatEnabled, NatParamsDiffer, RulesOf, PolicyRuleTouch, ListsRule, ExtrasReconcile.NatLineTouch;
    DroppedForwardIsDeleted(Lookup(m.managed, iface.name).policyRoutes, iface.policyRoutes, r);
    ListingTouch(m.extras, iface, r);
  }

  lemma DroppingTouch(net: Net, m: Memory, d: Driver, iface: Interface, r: Rule) returns (t: Touch)
    requires !Asks(net, d, iface, r) && Drops(net, m, d, iface, r)
    ensures ByIface(net, m, d, iface, r, t) && t.drops > 0
  {
    hide Owns, NatEnabled, NatParamsDiffer, RulesOf, PolicyRuleTouch, ListsRule, ExtrasReconcile.NatLineTouch;
    var was := Lookup(m.managed, iface.name);
    DroppedForwardIsDeleted(was.policyRoutes, iface.policyRoutes, r);
    ListingTouch(m.extras, iface, r);
    if d.InKernel? && Torn(was, iface) && Clears(net, was, r) {
      t := NatTouch(net, was, iface, r);
    } else if d.InKernel? && r in RulesOf(was.policyRoutes) {
      t := PolicyRuleTouch(was.policyRoutes, iface.policyRoutes, r);
    } else {
      t := ExtrasRuleTouch(m.extras, iface, r);
    }
  }

  /** A rule the sync does not ask for is gone afterwards exactly when the sync drops it. */
  lemma UnaskedOutcome(net: Net, m: Memory, e: Event, r: Rule, c: nat)
    requires e.Sync? && Proper(m, e) && c <= 1 && !OverlayShape(r) && !AskedFor(net, e, r)
    ensures CopiesAfterEvent(net, m, e, r, c) == if Dropped(net, m, e, r) then 0 else c
  {
    hide Asks, SyncTouches, CopiesAfterEvent, OverlayShape, ByIface, Drops, Clears, RulesOf, DistinctNames, ByName;
    SyncIsFold(net, m, e, r, c);
    var ts := SyncTouches(net, m, e, r);
    forall t | t in ts ensures !t.wants && (t.drops > 0 ==> Dropped(net, m, e, r)) {
      SyncTouchIn(net, m, e, r, t);
      if t.wants { WantedByAsker(net, m, e, r, t); }
      if iface :| iface in e.ifaces && ByIface(net, m, e.driver, iface, r, t) {
        UnaskedTouch(net, m, e.driver, iface, r, t);
      }
    }
    FoldAtMostOne(c, ts);
    if Dropped(net, m, e, r) {
      var t := DropsSomewhere(net, m, e, r);
      FoldDropped(c, ts, t);
    } else {
      FoldKept(c, ts);
    }
  }

  lemma DropsSomewhere(net: Net, m: Memory, e: Event, r: Rule) returns (t: Touch)
    requires e.Sync? && Proper(m, e) && !AskedFor(net, e, r) && Dropped(net, m, e, r)
    ensures t in SyncTouches(net, m, e, r) && t.drops > 0
  {
    hide Asks, SyncTouches, ByIface, Drops, Clears, RulesOf, DistinctNames, ByName;
    if iface :| iface in e.ifaces && Drops(net, m, e.driver, iface, r) {
      t := DroppingTouch(net, m, e.driver, iface, r);
    } else {
      var n :| n in StaleNames(m.managed, Driven(e.driver, e.ifaces))
               && (Clears(net, m.managed[n], r) || r in RulesOf(m.managed[n].policyRoutes));
      t := if Clears(net, m.managed[n], r) then TeardownTouch(net, m.managed[n], r)
          else RemoveRuleTouch(m.managed[n].policyRoutes, r);
      assert n in e.order && ByStale(net, m, n, r, t);
    }
    SyncTouchIn(net, m, e, r, t);
  }

  lemma UnseenUntouched(net: Net, run: seq<Event>, e: Event, r: Rule, c: nat)
    requires e.Sync? && ProperRun(run + [e]) && !OverlayShape(r) && !Seen(net, run + [e], r)
    requires Forgotten(net, MemoryAfter(run), r)
    ensures CopiesAfterEvent(net, MemoryAfter(run), e, r, c) == c
  {
    hide CopiesAfterEvent, OverlayShape, ProperRun, Mentions, Forgotten, SyncTouches, Seen, Proper;
    AppendedEvent(net, run, e, r, 0);
    forall iface | iface in e.ifaces ensures !Mentions(net, iface, r) {
      if Mentions(net, iface, r) { MentionedIsSeen(net, run, e, iface, r); }
    }
    SyncIsFold(net, MemoryAfter(run), e, r, c);
    UnmentionedUntouched(net, MemoryAfter(run), e, r, c);
  }

  lemma UnaskedExactIff(net: Net, run: seq<Event>, e: Event, r: Rule, base: nat)
    requires net.Valid() && e.Sync? && ProperRun(run + [e]) && !OverlayShape(r) && !AskedFor(net, e, r)
    requires Seen(net, run + [e], r) ==> base == 0
    ensures var m, c := MemoryAfter(run), CopiesAfterRun(net, run, r, base);
            CopiesAfterRun(net, run + [e], r, base) == base <==> c == base || Dropped(net, m, e, r)
  {
    hide CopiesAfterEvent, OverlayShape, ProperRun, Mentions, Claimed, Forgotten, WellNamed, AskedFor, Dropped, Stray,
         Seen;
    AppendedEvent(net, run, e, r, base);
    RunAccounted(net, run, r, base);
    var m, c := MemoryAfter(run), CopiesAfterRun(net, run, r, base);
    if base == 0 {
      UnaskedOutcome(net, m, e, r, c);
    } else {
      UnseenUntouched(net, run, e, r, c);
    }
  }

  /** The exact reach of TickedExact, for any run. A successful sync and a tick leave the host's own copies plus
      the one the newest configuration stands for, exactly when the configuration wishes for the rule, or no
      copy of the agent's was left, or the sync drops it. What fails is the rest: a copy on the host that
      nobody asks for and no pass drops, such as the custom line of an interface that vanished. */
  lemma TickedExactIff(net: Net, run: seq<Event>, e: Event, tick: Event, r: Rule, base: nat)
    requires net.Valid() && e.Sync? && e.driver.Succeeds() && tick.Tick? && ProperRun(run + [e]) && !OverlayShape(r)
    requires Seen(net, run + [e], r) ==> base == 0
    ensures var m, c := MemoryAfter(run), CopiesAfterRun(net, run, r, base);
            CopiesAfterRun(net, run + [e] + [tick], r, base) == base + (if Stands(net, m, e.ifaces, r) then 1 else 0)
            <==> Wished(net, e.ifaces, r) || c == base || Dropped(net, m, e, r)
  {
    hide CopiesAfterEvent, OverlayShape, NatWanted, TickAsks, ProperRun, Claimed, Forgotten, WellNamed, AskedFor,
         Stray, CustomLeaves, Seen, Dropped;
    AppendedEvent(net, run, e, r, base);
    AppendedEvent(net, run + [e], tick, r, base);
    RunAccounted(net, run + [e], r, base);
    NatExact(net, run, e, r, base);
    DesiredOf(MemoryAfter(run), e);
    AskedIsWished(net, e, r);
    TickEvent(net, MemoryAfter(run + [e]), tick, r, CopiesAfterRun(net, run + [e], r, base));
    if Wished(net, e.ifaces, r) { WishedIsSeen(net, run, e, r); }
  }

  // How long a copy nobody asks for lasts.

  /** Sync i of the further run drops the rule. */
  ghost predicate DropsAt(net: Net, run: seq<Event>, more: seq<Event>, r: Rule, i: int) {
    0 <= i < |more| && more[i].Sync? && Dropped(net, MemoryAfter(run + more[..i]), more[i], r)
  }

  /** Tick i of the further run puts the rule back, and no later sync drops it. */
  ghost predicate RestoredLast(net: Net, run: seq<Event>, more: seq<Event>, r: Rule, i: int) {
    && 0 <= i < |more| && more[i].Tick? && TickAsks(MemoryAfter(run + more[..i]).desired, r)
    && forall j | i < j < |more| :: !DropsAt(net, run, more, r, j)
  }

  /** Some tick puts the rule back and no later sync drops it, or it was there and no sync drops it. */
  ghost predicate Lasts(net: Net, run: seq<Event>, more: seq<Event>, r: Rule, c: nat) {
    || (exists i :: RestoredLast(net, run, more, r, i))
    || (c == 1 && forall j | 0 <= j < |more| :: !DropsAt(net, run, more, r, j))
  }

  lemma LastsPush(net: Net, run: seq<Event>, more: seq<Event>, r: Rule, c: nat)
    requires more != []
    ensures var n := |more| - 1;
            Lasts(net, run, more, r, c) <==>
              || (more[n].Tick? && TickAsks(MemoryAfter(run + more[..n]).desired, r))
              || (!DropsAt(net, run, more, r, n) && Lasts(net, run, more[..n], r, c))
  {
    hide Dropped, MemoryAfter, TickAsks;
    var n := |more| - 1;
    var init := more[..n];
    forall i | 0 <= i < n ensures init[..i] == more[..i] && init[i] == more[i] { }
    assert forall i | 0 <= i < n :: DropsAt(net, run, init, r, i) <==> DropsAt(net, run, more, r, i);
    if more[n].Tick? && TickAsks(MemoryAfter(run + more[..n]).desired, r) { assert RestoredLast(net, run, more, r, n); }
    if i :| RestoredLast(net, run, more, r, i) {
      if i < n { assert RestoredLast(net, run, init, r, i); }
    }
    if !DropsAt(net, run, more, r, n) {
      if i :| RestoredLast(net, run, init, r, i) { assert RestoredLast(net, run, more, r, i); }
    }
  }

  /** Over any further run whose syncs never ask for the rule, with whatever engines, failures and ticks, the
      rule is there at the end exactly when the last to touch it was a tick whose recorded state asks for
      it, or it was there before and no sync dropped it. */
  lemma {:induction false} LeftoverLastsIff(net: Net, run: seq<Event>, more: seq<Event>, r: Rule, base: nat)
    requires ProperRun(run + more) && !OverlayShape(r) && CopiesAfterRun(net, run, r, base) <= 1
    requires forall i | 0 <= i < |more| && more[i].Sync? :: !AskedFor(net, more[i], r)
    ensures CopiesAfterRun(net, run + more, r, base) == if Lasts(net, run, more, r, CopiesAfterRun(net, run, r, base))
            then 1 else 0
  {
    hide CopiesAfterEvent, CopiesAfterRun, MemoryAfter, OverlayShape, ProperRun, AskedFor, Dropped, Lasts, TickAsks,
         Proper, Remember;
    var c0 := CopiesAfterRun(net, run, r, base);
    if more == [] {
      assert run + more == run;
      NothingDropped(net, run, r, c0);
    } else {
      var n := |more| - 1;
      var init, e := more[..n], more[n];
      assert run + more == (run + init) + [e];
      assert forall i | 0 <= i < n :: init[i] == more[i];
      AppendedEvent(net, run + init, e, r, base);
      LeftoverLastsIff(net, run, init, r, base);
      LastsPush(net, run, more, r, c0);
      var m, c := MemoryAfter(run + init), CopiesAfterRun(net, run + init, r, base);
      if e.Sync? {
        UnaskedOutcome(net, m, e, r, c);
      } else {
        TickEvent(net, m, e, r, c);
      }
    }
  }

  lemma NothingDropped(net: Net, run: seq<Event>, r: Rule, c: nat)
    ensures Lasts(net, run, [], r, c) <==> c == 1
  {
    assert forall i :: !RestoredLast(net, run, [], r, i);
  }

  // ---- failed syncs -----------------------------------------------------------------------------

  /** Under sing-box, once the kernel engine is gone, a rule the sync does not ask for goes only as a custom line:
      switching NAT off leaves its rules on the host, since ensureNAT only adds. */
  lemma SingBoxLeavesNat(net: Net, m: Memory, e: Event, r: Rule, c: nat)
    requires e.Sync? && e.driver.InSingBox? && m.managed == map[] && Proper(m, e)
    requires c <= 1 && !OverlayShape(r) && !AskedFor(net, e, r)
    ensures CopiesAfterEvent(net, m, e, r, c)
            == if exists iface :: iface in e.ifaces && ListsRule(ExtrasOf(m.extras, iface.name), r) then 0 else c
  {
    hide ListsRule, Clears, RulesOf, CopiesAfterEvent, OverlayShape, AskedFor, Proper;
    UnaskedOutcome(net, m, e, r, c);
    if iface :| iface in e.ifaces && ListsRule(ExtrasOf(m.extras, iface.name), r) {
      assert Drops(net, m, e.driver, iface, r);
    }
  }

  /** After a sync with sing-box a following sync, whatever its engine, drops a rule exactly when some interface
      it desires is remembered to have listed it as a custom line. */
  lemma AfterSingBoxDropsIff(net: Net, m: Memory, f: Event, g: Event, r: Rule)
    requires f.Sync? && f.driver.InSingBox? && g.Sync?
    ensures var m' := Remember(m, f);
            Dropped(net, m', g, r) <==>
                exists iface :: iface in g.ifaces
                  && ListsRule(ExtrasOf(m'.extras, iface.name), r)
  {
    hide ListsRule, Clears, RulesOf, ExtrasAfter, NatEnabled;
    var m' := Remember(m, f);
    NothingManaged(net, r);
    if iface :| iface in g.ifaces && ListsRule(ExtrasOf(m'.extras, iface.name), r) {
      assert Drops(net, m', g.driver, iface, r);
    }
  }

  /** What a failed sync drops and the watchdog brings back. After a failed sync that does not ask for a rule,
      and a tick, the rule is there exactly when the recorded, older state asks for it, or it was there and
      the sync did not drop it. The next sync, when it does not ask for the rule either, removes it exactly
      when some interface it desires listed the rule in the failed snapshot's memory of custom entries; so
      what the tick brought back for an interface both snapshots name stays for good. */
  lemma FailedSyncOutcome(net: Net, run: seq<Event>, f: Event, tick: Event, g: Event, r: Rule, base: nat)
    requires f.Sync? && !f.driver.Succeeds() && tick.Tick? && g.Sync? && ProperRun(run + [f] + [tick] + [g])
             && !OverlayShape(r)
    requires CopiesAfterRun(net, run, r, base) <= 1 && !AskedFor(net, f, r)
    ensures var m, c := MemoryAfter(run), CopiesAfterRun(net, run, r, base); var m' := Remember(m, f);
            var ticked := CopiesAfterRun(net, run + [f] + [tick], r, base);
            && ticked == (if TickAsks(m.desired, r) || (c == 1 && !Dropped(net, m, f, r)) then 1 else 0)
            && (!AskedFor(net, g, r) ==>
                  CopiesAfterRun(net, run + [f] + [tick] + [g], r, base)
                  == if exists iface :: iface in g.ifaces && ListsRule(ExtrasOf(m'.extras, iface.name), r) then 0
                      else ticked)
  {
    hide CopiesAfterEvent, OverlayShape, ProperRun, AskedFor, Dropped, TickAsks, Proper, ListsRule, ExtrasAfter,
         CopiesAfterRun, MemoryAfter;
    var m, c := MemoryAfter(run), CopiesAfterRun(net, run, r, base);
    AppendedEvent(net, run + [f] + [tick], g, r, base);
    AppendedEvent(net, run + [f], tick, r, base);
    AppendedEvent(net, run, f, r, base);
    ProperPrefix(run + [f] + [tick] + [g]);
    ProperPrefix(run + [f] + [tick]);
    UnaskedOutcome(net, m, f, r, c);
    DesiredOf(m, f);
    TickEvent(net, Remember(m, f), tick, r, CopiesAfterRun(net, run + [f], r, base));
    AfterSingBoxDropsIff(net, m, f, g, r);
    if !AskedFor(net, g, r) {
      UnaskedOutcome(net, Remember(m, f), g, r, CopiesAfterRun(net, run + [f] + [tick], r, base));
    }
  }

  // ---- where the guarantee stops ----------------------------------------------------------------

  /** The change of this interface tears rule r down and does not want it back. */
  ghost predicate Loses(net: Net, managed: Managed, iface: Interface, r: Rule) {
    var was := Lookup(managed, iface.name);
    Torn(was, iface) && Clears(net, was, r) && !Wants(net, iface, r)
  }

  ghost predicate WantsLast(net: Net, managed: Managed, ifaces: seq<Interface>, r: Rule, i: int) {
    0 <= i < |ifaces| && Wants(net, ifaces[i], r) && forall j | i < j < |ifaces| :: !Loses(net, managed, ifaces[j], r)
  }

  /** Some interface wants the rule and no later one loses it, or it was there and none loses it. */
  ghost predicate SurvivesAll(net: Net, managed: Managed, ifaces: seq<Interface>, r: Rule, c: nat) {
    || (exists i :: WantsLast(net, managed, ifaces, r, i))
    || (c == 1 && forall j | 0 <= j < |ifaces| :: !Loses(net, managed, ifaces[j], r))
  }

  lemma SurvivesPush(net: Net, managed: Managed, ifaces: seq<Interface>, r: Rule, c: nat)
    requires ifaces != []
    ensures var init, last := ifaces[..|ifaces| - 1], ifaces[|ifaces| - 1];
            SurvivesAll(net, managed, ifaces, r, c) <==>
              Wants(net, last, r) || (!Loses(net, managed, last, r) && SurvivesAll(net, managed, init, r, c))
  {
    hide Wants, Loses;
    var m := |ifaces| - 1;
    var init, last := ifaces[..m], ifaces[m];
    assert forall i | 0 <= i < m :: init[i] == ifaces[i];
    if Wants(net, last, r) { assert WantsLast(net, managed, ifaces, r, m); }
    if i :| WantsLast(net, managed, ifaces, r, i) {
      if i < m { assert WantsLast(net, managed, init, r, i); }
    }
    if !Loses(net, managed, last, r) {
      if i :| WantsLast(net, managed, init, r, i) { assert WantsLast(net, managed, ifaces, r, i); }
    }
  }

  lemma {:induction false} IfacePhase(net: Net, managed: Managed, ifaces: seq<Interface>, r: Rule, c: nat)
    requires c <= 1 && forall text :: r !in RulesOf(text)
    ensures Fold(c, IfaceTouches(net, managed, ifaces, r)) == if SurvivesAll(net, managed, ifaces, r, c) then 1 else 0
  {
    hide Owns, NatEnabled, Torn, RulesOf, SurvivesAll, Fold, PolicyRuleTouch;
    if ifaces == [] {
      NoIface(net, managed, r, c);
    } else {
      var init, last := ifaces[..|ifaces| - 1], ifaces[|ifaces| - 1];
      var was := Lookup(managed, last.name);
      IfacePhase(net, managed, init, r, c);
      SurvivesPush(net, managed, ifaces, r, c);
      DroppedForwardIsDeleted(was.policyRoutes, last.policyRoutes, r);
      FoldTwo(c, IfaceTouches(net, managed, init, r), NatTouch(net, was, last, r),
              PolicyRuleTouch(was.policyRoutes, last.policyRoutes, r));
    }
  }

  lemma NoIface(net: Net, managed: Managed, r: Rule, c: nat)
    requires c <= 1
    ensures Fold(c, IfaceTouches(net, managed, [], r)) == if SurvivesAll(net, managed, [], r, c) then 1 else 0
  {
    assert forall i :: !WantsLast(net, managed, [], r, i);
  }

  /** Apply alone does not keep a shared rule. It is present after Apply exactly when some desired
      interface wants it and no later one tears it down, or it was there and none tears it down, and no
      removed interface clears it. */
  lemma ApplyKeepsRuleIff(net: Net, m: Memory, e: Event, r: Rule, owner: Interface, c: nat)
    requires e.Sync? && Proper(m, e) && c <= 1 && Owns(net, owner, r)
    ensures var driven := Driven(e.driver, e.ifaces);
            Fold(c, ApplyTouches(net, m.managed, driven, e.order, r)) == 1 <==>
            && SurvivesAll(net, m.managed, driven, r, c)
            && forall n | n in StaleNames(m.managed, driven) :: !Clears(net, m.managed[n], r)
  {
    hide Owns, Clears, IfaceTouches, StaleTouches, SurvivesAll, RulesOf, DistinctNames, ByName;
    OwnShapes(net, owner, r);
    var driven := Driven(e.driver, e.ifaces);
    var a, b := IfaceTouches(net, m.managed, driven, r), StaleTouches(net, m.managed, e.order, r);
    FoldConcat(c, a, b);
    IfacePhase(net, m.managed, driven, r, c);
    StalePhase(net, m, e, r, Fold(c, a));
  }

  lemma StalePhase(net: Net, m: Memory, e: Event, r: Rule, c: nat)
    requires e.Sync? && Proper(m, e) && c <= 1 && forall text :: r !in RulesOf(text)
    ensures Fold(c, StaleTouches(net, m.managed, e.order, r))
            == if forall n | n in StaleNames(m.managed, Driven(e.driver, e.ifaces)) :: !Clears(net, m.managed[n], r)
                then c else 0
  {
    hide Clears, StaleTouches, RulesOf, DistinctNames, ByName;
    var ts := StaleTouches(net, m.managed, e.order, r);
    forall t | t in ts ensures !t.wants && (t.drops > 0 ==>
        exists n :: n in e.order && n in m.managed
          && Clears(net, m.managed[n], r)) {
      StaleTouchIn(net, m.managed, e.order, r, t);
    }
    FoldAtMostOne(c, ts);
    if n :| n in StaleNames(m.managed, Driven(e.driver, e.ifaces)) && Clears(net, m.managed[n], r) {
      StaleTouchIn(net, m.managed, e.order, r, TeardownTouch(net, m.managed[n], r));
      FoldDropped(c, ts, TeardownTouch(net, m.managed[n], r));
    } else {
      FoldKept(c, ts);
    }
  }

  /** In particular a rule that a kept interface shares with a removed one is gone after Apply, and
      ensureNAT puts it back. */
  lemma SharedRuleLostAndRestored(net: Net, m: Memory, e: Event, r: Rule, kept: Interface, gone: string, c: nat)
    requires net.Valid() && e.Sync? && Proper(m, e) && c <= 1
    requires kept in e.ifaces && Wants(net, kept, r)
    requires gone in StaleNames(m.managed, Driven(e.driver, e.ifaces)) && Owns(net, m.managed[gone], r)
    ensures Fold(c, ApplyTouches(net, m.managed, Driven(e.driver, e.ifaces), e.order, r)) == 0
    ensures AfterNat(net, m, e, r, c) == 1
  {
    hide Owns, IfaceTouches, StaleTouches, NatEnsureTouches, SurvivesAll, DistinctNames, ByName;
    EgressHasName(net, m.managed[gone], r);
    ApplyKeepsRuleIff(net, m, e, r, kept, c);
    var a := Fold(c, ApplyTouches(net, m.managed, Driven(e.driver, e.ifaces), e.order, r));
    FoldAtMostOne(c, ApplyTouches(net, m.managed, Driven(e.driver, e.ifaces), e.order, r));
    assert NatWanted(net, e.ifaces, r);
    EnsureNatCloses(net, e.ifaces, r, a);
  }

  lemma OneSync(net: Net, a: Interface, links: seq<LinkConfig>)
    ensures var m := MemoryAfter([Sync([a], links, [], InKernel)]);
            ProperRun([Sync([a], links, [], InKernel)]) && m.managed == map[a.name := a] && m.desired == [a]
            && ExtrasOf(m.extras, a.name) == a.extras && m.vxlan == links
  {
    var e := Sync([a], links, [], InKernel);
    var run := [e];
    assert run[..0] == [] && MemoryAfter([]) == START;
    assert Proper(START, e);
    assert [a][..0] == [];
    assert ByName([a]) == map[][a.name := a];
    assert MemoryAfter(run) == Remember(START, e);
    ExtrasAfterGives(START.extras, [a], a.name);
  }

  /** The run that adds one interface and then removes it. */
  function AddRemove(a: Interface, links: seq<LinkConfig>): seq<Event> {
    [Sync([a], links, [], InKernel)] + [Sync([], links, [a.name], InKernel)]
  }

  lemma AddRemoveProper(net: Net, a: Interface, links: seq<LinkConfig>)
    ensures ProperRun(AddRemove(a, links)) && Proper(MemoryAfter([Sync([a], links, [], InKernel)]),
                                                     Sync([], links, [a.name], InKernel))
  {
    OneSync(net, a, links);
    var e := Sync([a], links, [], InKernel);
    var f := Sync([], links, [a.name], InKernel);
    assert StaleNames(map[a.name := a], []) == {a.name};
    assert AddRemove(a, links)[..1] == [e];
    assert Proper(MemoryAfter([e]), f);
  }

  /** The custom NAT lines of an interface that vanishes stay on the host: the sync that removes the
      interface no longer visits them. After adding and removing an interface a rule the host did not
      have is there exactly when the interface listed it and does not compute it as a NAT rule too. */
  lemma VanishedRuleStaysIff(net: Net, a: Interface, links: seq<LinkConfig>, r: Rule)
    requires net.Valid() && !OverlayShape(r)
    ensures ProperRun(AddRemove(a, links))
    ensures CopiesAfterRun(net, AddRemove(a, links), r, 0) == if ListsRule(a.extras, r)
            && !Owns(net, a, r) then 1 else 0
  {
    hide Owns, RulesOf, ListsRule, CopiesAfterEvent, OverlayShape, ProperRun, NatEnabled, CopiesAfterRun, MemoryAfter;
    OwnShapes(net, a, r);
    OneSync(net, a, links);
    AddRemoveProper(net, a, links);
    if ListsRule(a.extras, r) {
      var e, f := Sync([a], links, [], InKernel), Sync([], links, [a.name], InKernel);
      AddRemoveRuns(net, a, links, r, 0);
      FirstSyncLists(net, a, links, r);
      ListedIsNotPolicy(a.extras, r);
      if Owns(net, a, r) {
        EgressHasName(net, a, r);
        LastSyncTakes(net, MemoryAfter([e]), f, a, r, 1);
      } else {
        LastSyncLeaves(net, MemoryAfter([e]), f, r, 1);
      }
    } else {
      RunAccounted(net, AddRemove(a, links), r, 0);
      KernelRunsTrack(net, AddRemove(a, links), r);
      VanishedUnclaimed(net, a, links, r);
    }
  }

  lemma AddRemoveRuns(net: Net, a: Interface, links: seq<LinkConfig>, r: Rule, base: nat)
    ensures var e, f := Sync([a], links, [], InKernel), Sync([], links, [a.name], InKernel);
            CopiesAfterRun(net, AddRemove(a, links), r, base)
            == CopiesAfterEvent(net, MemoryAfter([e]), f, r, CopiesAfterEvent(net, START, e, r, base))
  {
    hide CopiesAfterEvent;
    var e, f := Sync([a], links, [], InKernel), Sync([], links, [a.name], InKernel);
    assert [] + [e] == [e];
    AppendedEvent(net, [], e, r, base);
    AppendedEvent(net, [e], f, r, base);
  }

  lemma ListedIsNotPolicy(x: Extras, r: Rule)
    requires ListsRule(x, r)
    ensures forall text :: r !in RulesOf(text)
  {
    hide FromSubnets, PolicyLines, ExtrasReconcile.NatList;
    assert r.table == "nat";
    forall text ensures r !in RulesOf(text) { ForwardRulesMembers(FromSubnets(PolicyLines(text)), r); }
  }

  lemma FirstMemory(a: Interface, links: seq<LinkConfig>, n: string)
    ensures ExtrasOf(MemoryAfter([Sync([a], links, [], InKernel)]).extras, n) == if n == a.name then a.extras
            else NO_EXTRAS
  {
    hide ExtrasAfter, ByName;
    var e := Sync([a], links, [], InKernel);
    assert [e][..0] == [];
    assert MemoryAfter([]) == START;
    assert MemoryAfter([e]) == Remember(START, e);
    ExtrasAfterGives(START.extras, [a], n);
  }

  lemma VanishedMemory(a: Interface, links: seq<LinkConfig>)
    ensures var m := MemoryAfter(AddRemove(a, links));
            m.managed == map[] && m.desired == [] && forall n :: ExtrasOf(m.extras, n) == if n == a.name then a.extras
                else NO_EXTRAS
  {
    hide Remember, ExtrasOf;
    var e, f := Sync([a], links, [], InKernel), Sync([], links, [a.name], InKernel);
    assert AddRemove(a, links)[..1] == [e];
    LastMemory(MemoryAfter([e]), f);
    forall n { FirstMemory(a, links, n); }
  }

  /** A sync without interfaces forgets what was managed and keeps the custom entries. */
  lemma LastMemory(m: Memory, f: Event)
    requires f.Sync? && f.driver.InKernel? && f.ifaces == []
    ensures Remember(m, f).managed == map[] && Remember(m, f).desired == [] && Remember(m, f).extras == m.extras
  {
  }

  lemma VanishedUnclaimed(net: Net, a: Interface, links: seq<LinkConfig>, r: Rule)
    requires !ListsRule(a.extras, r)
    ensures !Claimed(net, MemoryAfter(AddRemove(a, links)), r)
  {
    hide ListsRule, MemoryAfter, AddRemove;
    VanishedMemory(a, links);
    NothingListed(r);
  }

  lemma FirstSyncLists(net: Net, a: Interface, links: seq<LinkConfig>, r: Rule)
    requires ListsRule(a.extras, r) && !OverlayShape(r)
    ensures CopiesAfterEvent(net, START, Sync([a], links, [], InKernel), r, 0) == 1
  {
    hide Owns, RulesOf, ListsRule, ApplyTouches, NatEnsureTouches, ExtrasReconcile.NatLineTouch;
    var e := Sync([a], links, [], InKernel);
    SyncPhases(net, START, e, r, 0);
    var n := AfterNat(net, START, e, r, 0);
    FoldAtMostOne(0, ApplyTouches(net, START.managed, e.ifaces, e.order, r));
    FoldAtMostOne(Fold(0, ApplyTouches(net, START.managed, e.ifaces, e.order, r)), NatEnsureTouches(net, e.ifaces, r));
    ListingTouch(map[], a, r);
    assert [a][..0] == [];
    assert ExtrasRuleTouches(map[], [a], r) == [] + [ExtrasRuleTouch(map[], a, r)];
    FoldPush(n, [], ExtrasRuleTouch(map[], a, r));
  }

  lemma LastSyncLeaves(net: Net, m: Memory, f: Event, r: Rule, c: nat)
    requires f.Sync? && f.ifaces == [] && Proper(m, f) && !OverlayShape(r)
    requires forall n | n in m.managed :: !Clears(net, m.managed[n], r) && r !in RulesOf(m.managed[n].policyRoutes)
    ensures CopiesAfterEvent(net, m, f, r, c) == c
  {
    hide Clears, RulesOf, SyncTouches, DistinctNames, ByName;
    SyncIsFold(net, m, f, r, c);
    var ts := SyncTouches(net, m, f, r);
    forall i | 0 <= i < |ts| ensures ts[i] == NOTHING {
      SyncTouchIn(net, m, f, r, ts[i]);
    }
    FoldUntouched(c, ts);
  }

  /** Removing an interface tears its NAT rules down, whether or not NAT was on for it: an equal rule of
      the operator goes with it. Exactly then adding and removing the interface does not restore the
      host. */
  lemma RemovalTakesOperatorRuleIff(net: Net, a: Interface, links: seq<LinkConfig>, r: Rule, owner: Interface,
                                    base: nat)
    requires net.Valid() && !ListsRule(a.extras, r) && Owns(net, owner, r)
    ensures ProperRun(AddRemove(a, links))
    ensures CopiesAfterRun(net, AddRemove(a, links), r, base) == base <==> base == 0 || !Owns(net, a, r)
  {
    hide Owns, RulesOf, ListsRule, CopiesAfterEvent, OverlayShape, ProperRun, NatEnabled, SyncTouches, CopiesAfterRun,
         MemoryAfter;
    OwnShapes(net, owner, r);
    OneSync(net, a, links);
    AddRemoveProper(net, a, links);
    var e, f := Sync([a], links, [], InKernel), Sync([], links, [a.name], InKernel);
    AddRemoveRuns(net, a, links, r, base);
    FirstSyncAdds(net, a, links, r, base);
    var c := CopiesAfterEvent(net, START, e, r, base);
    if Owns(net, a, r) {
      EgressHasName(net, a, r);
      LastSyncTakes(net, MemoryAfter([e]), f, a, r, c);
    } else {
      LastSyncLeaves(net, MemoryAfter([e]), f, r, c);
    }
  }

  lemma FirstSyncAdds(net: Net, a: Interface, links: seq<LinkConfig>, r: Rule, c: nat)
    requires !ListsRule(a.extras, r) && !OverlayShape(r) && forall text :: r !in RulesOf(text)
    ensures CopiesAfterEvent(net, START, Sync([a], links, [], InKernel), r, c) == if Wants(net, a, r) then Max(1, c)
            else c
  {
    hide Owns, RulesOf, ListsRule, SyncTouches, NatEnabled, PolicyRuleTouch, ExtrasReconcile.NatLineTouch;
    var e := Sync([a], links, [], InKernel);
    SyncIsFold(net, START, e, r, c);
    NothingManaged(net, r);
    NothingListed(r);
    var ts := SyncTouches(net, START, e, r);
    forall i | 0 <= i < |ts| ensures ts[i].drops == 0 && (ts[i].wants ==> Wants(net, a, r)) {
      SyncTouchIn(net, START, e, r, ts[i]);
      DroppedForwardIsDeleted("", a.policyRoutes, r);
      ListingTouch(map[], a, r);
    }
    OnlyAdding(c, ts);
    if Wants(net, a, r) {
      assert a in e.ifaces && ByIface(net, START, e.driver, a, r, Touch(0, true));
      SyncTouchIn(net, START, e, r, Touch(0, true));
      var i :| 0 <= i < |ts| && ts[i] == Touch(0, true);
    }
  }

  lemma LastSyncTakes(net: Net, m: Memory, f: Event, a: Interface, r: Rule, c: nat)
    requires f.Sync? && f.ifaces == [] && f.order == [a.name] && m.managed == map[a.name := a] && !OverlayShape(r)
    requires Clears(net, a, r) && r !in RulesOf(a.policyRoutes)
    ensures CopiesAfterEvent(net, m, f, r, c) == Monus(c, 1)
  {
    hide Clears, RulesOf;
    SyncPhases(net, m, f, r, c);
    assert [a.name][..0] == [];
    var ts := [RemoveRuleTouch(a.policyRoutes, r), TeardownTouch(net, a, r)];
    assert Lookup(m.managed, a.name) == a;
    assert StaleTouches(net, m.managed, [a.name], r) == [] + ts;
    assert ApplyTouches(net, m.managed, [], [a.name], r) == [] + ts;
    FoldTwo(c, [], ts[0], ts[1]);
  }

  /** Interface names must be distinct: of two interfaces with one name only the second is remembered.
      When they are removed, a rule the first one wanted stays behind for good exactly when the second
      one does not compute it too. */
  lemma DuplicateNamesLeakIff(net: Net, a: Interface, b: Interface, links: seq<LinkConfig>, r: Rule)
    requires net.Valid() && a.name == b.name && Wants(net, a, r)
    requires !ListsRule(a.extras, r) && !ListsRule(b.extras, r)
    ensures var m := Remember(START, Sync([a, b], links, [], InKernel)); var f := Sync([], links, [a.name], InKernel);
            && Proper(m, f)
            && CopiesAfterEvent(net, m, f, r, CopiesAfterEvent(net, START, Sync([a, b], links, [], InKernel), r, 0))
               == if Owns(net, b, r) then 0 else 1
  {
    hide Owns, RulesOf, ListsRule, CopiesAfterEvent, OverlayShape, NatEnabled;
    OwnShapes(net, a, r);
    var e, f := Sync([a, b], links, [], InKernel), Sync([], links, [a.name], InKernel);
    TwinSync(net, a, b, links, r);
    var m := Remember(START, e);
    assert [a, b][..1] == [a] && [a][..0] == [];
    assert m.managed == map[b.name := b];
    assert StaleNames(m.managed, []) == {a.name};
    if Owns(net, b, r) {
      EgressHasName(net, b, r);
      LastSyncTakes(net, m, f, b, r, 1);
    } else {
      LastSyncLeaves(net, m, f, r, 1);
    }
  }

  lemma TwinSync(net: Net, a: Interface, b: Interface, links: seq<LinkConfig>, r: Rule)
    requires Wants(net, a, r) && !OverlayShape(r) && !ListsRule(a.extras, r) && !ListsRule(b.extras, r)
    ensures CopiesAfterEvent(net, START, Sync([a, b], links, [], InKernel), r, 0) == 1
  {
    hide Wants, ListsRule, ApplyTouches, NatEnsureTouches, ExtrasRuleTouches, OverlayShape, CopiesAfterEvent, Fold;
    var e := Sync([a, b], links, [], InKernel);
    SyncPhases(net, START, e, r, 0);
    FoldAtMostOne(0, ApplyTouches(net, START.managed, e.ifaces, e.order, r));
    assert a in e.ifaces;
    EnsureNatCloses(net, e.ifaces, r, Fold(0, ApplyTouches(net, START.managed, e.ifaces, e.order, r)));
    TwinExtras(a, b, r);
  }

  lemma TwinExtras(a: Interface, b: Interface, r: Rule)
    requires !ListsRule(a.extras, r) && !ListsRule(b.extras, r)
    ensures Fold(1, ExtrasRuleTouches(map[], [a, b], r)) == 1
  {
    hide ListsRule, ExtrasRuleTouch, ExtrasVisit;
    assert [a, b][..1] == [a] && [a][..0] == [];
    NothingListed(r);
    assert ExtrasAfter(map[], []) == map[];
    var m := ExtrasVisit(map[], a);
    assert ExtrasAfter(map[], [a]) == m;
    TwinMemory(a, b.name, r);
    TwinTouch(map[], a, r);
    TwinTouch(m, b, r);
    assert ExtrasRuleTouches(map[], [], r) == [];
    assert ExtrasRuleTouches(map[], [a], r) == [] + [NOTHING];
    assert ExtrasRuleTouches(map[], [a, b], r) == [NOTHING] + [NOTHING];
    FoldUntouched(1, ExtrasRuleTouches(map[], [a, b], r));
  }

  lemma TwinMemory(a: Interface, name: string, r: Rule)
    requires !ListsRule(a.extras, r)
    ensures !ListsRule(ExtrasOf(ExtrasVisit(map[], a), name), r)
  {
    hide ListsRule;
    NothingListed(r);
  }

  lemma TwinTouch(m: ExtrasMap, iface: Interface, r: Rule)
    requires !ListsRule(iface.extras, r) && !ListsRule(ExtrasOf(m, iface.name), r)
    ensures ExtrasRuleTouch(m, iface, r) == NOTHING
  {
    ListingTouch(m, iface, r);
  }
}
