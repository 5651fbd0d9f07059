/** Whole runs of syncs and watchdog ticks, seen by one `ip` entry: policy lines (wg/policy.go) and
    custom ip rules (extras/extras.go), which may name the same entry. */
module EntryRuns {
  import opened Host
  import opened Types
  import opened Counts
  import opened Policy
  import opened KernelEngine
  import opened SyncEffects
  import opened RuleRuns
  import RuleTheorems
  import ExtrasReconcile
  import WgDevice

  function EntriesAfterEvent(m: Memory, e: Event, k: Argv, c: nat): nat {
    match e
    case Sync(ifaces, _, order, d) => SyncEntries(m.managed, d, ifaces, order, m.extras, k, c)
    case Tick(_) => Fold(c, TickEntryTouches(m.desired, k))
  }

  function EntriesAfterRun(run: seq<Event>, k: Argv, base: nat): nat {
    if run == [] then base else
      var init := run[..|run| - 1];
      EntriesAfterEvent(MemoryAfter(init), run[|run| - 1], k, EntriesAfterRun(init, k, base))
  }

  predicate Lists(iface: Interface, k: Argv) {
    k in Keys(iface.policyRoutes) || ListsEntry(iface.extras, k)
  }

  /** Some interface lists the entry, as a policy line or as a custom rule. */
  ghost predicate Listed(ifaces: seq<Interface>, k: Argv) {
    exists iface :: iface in ifaces && Lists(iface, k)
  }

  /** The sync asks for the entry because of this interface; policy lines are the kernel engine's. */
  predicate AsksEntry(d: Driver, iface: Interface, k: Argv) {
    (d.InKernel? && k in Keys(iface.policyRoutes)) || ListsEntry(iface.extras, k)
  }

  ghost predicate EntryAskedFor(e: Event, k: Argv)
    requires e.Sync?
  {
    exists iface :: iface in e.ifaces && AsksEntry(e.driver, iface, k)
  }

  ghost predicate Claims(m: Memory, k: Argv) {
    || (exists n :: n in m.managed && k in Keys(m.managed[n].policyRoutes))
    || exists n :: ListsEntry(ExtrasOf(m.extras, n), k)
  }

  /** Event i asks for the entry, and what the agent remembers afterwards does not account for it. */
  ghost predicate EntryStraysAt(run: seq<Event>, k: Argv, i: int) {
    && 0 <= i < |run|
    && var m := MemoryAfter(run[..i]);
       && (if run[i].Sync? then EntryAskedFor(run[i], k) else Listed(m.desired, k))
       && !Claims(Remember(m, run[i]), k)
  }

  ghost predicate StrayEntry(run: seq<Event>, k: Argv) {
    exists i :: EntryStraysAt(run, k, i)
  }

  lemma EntryStrayPush(run: seq<Event>, k: Argv)
    requires run != []
    ensures var n := |run| - 1;
            StrayEntry(run, k) <==> StrayEntry(run[..n], k) || EntryStraysAt(run, k, n)
  {
    hide EntryAskedFor, Listed, Claims, Remember, MemoryAfter;
    var n := |run| - 1;
    forall i | 0 <= i < n ensures EntryStraysAt(run[..n], k, i) <==> EntryStraysAt(run, k, i) {
      assert run[..n][..i] == run[..i];
    }
  }

  ghost predicate Balanced(m: Memory, stray: bool, k: Argv, base: nat, c: nat) {
    || (c == base && !Claims(m, k) && !Listed(m.desired, k))
    || (base == 0 && c <= 1 && (c == 1 ==> stray || Claims(m, k)))
  }

  // ---- one sync as one list of touches ----------------------------------------------------------

  function EntryTouches(m: Memory, e: Event, k: Argv): seq<Touch>
    requires e.Sync?
  {
    ApplyEntryTouches(m.managed, Driven(e.driver, e.ifaces), e.order, k) + ExtrasEntryTouches(m.extras, e.ifaces, k)
  }

  ghost predicate FromIface(m: Memory, d: Driver, iface: Interface, k: Argv, t: Touch) {
    || (d.InKernel? && t == PolicyTouch(Lookup(m.managed, iface.name).policyRoutes, iface.policyRoutes, k))
    || t == ExtrasEntryTouch(m.extras, iface, k)
  }

  lemma {:induction false} PolicyTouchIn(managed: Managed, ifaces: seq<Interface>, k: Argv, t: Touch)
    ensures t in IfaceEntryTouches(managed, ifaces, k) <==>
            exists iface :: iface in ifaces && t == PolicyTouch(Lookup(managed, iface.name).policyRoutes,
                                                                iface.policyRoutes, k)
  {
    hide PolicyTouch, Lookup;
    if ifaces != [] {
      assert ifaces == ifaces[..|ifaces| - 1] + [ifaces[|ifaces| - 1]];
      PolicyTouchIn(managed, ifaces[..|ifaces| - 1], k, t);
    }
  }

  lemma {:induction false} RemoveTouchIn(managed: Managed, order: seq<string>, k: Argv, t: Touch)
    ensures t in StaleEntryTouches(managed, order, k) <==>
            exists n :: n in order && t == RemoveTouch(Lookup(managed, n).policyRoutes, k)
  {
    hide RemoveTouch, Lookup;
    if order != [] {
      assert order == order[..|order| - 1] + [order[|order| - 1]];
      RemoveTouchIn(managed, order[..|order| - 1], k, t);
    }
  }

  lemma {:induction false} CustomTouchIn(m: ExtrasMap, ifaces: seq<Interface>, k: Argv, t: Touch)
    requires DistinctNames(ifaces)
    ensures t in ExtrasEntryTouches(m, ifaces, k) <==>
              exists iface :: iface in ifaces
                && t == ExtrasEntryTouch(m, iface, k)
  {
    hide ExtrasReconcile.RuleTouch, ExtrasAfter;
    if ifaces != [] {
      var init, last := ifaces[..|ifaces| - 1], ifaces[|ifaces| - 1];
      assert ifaces == init + [last];
      CustomTouchIn(m, init, k, t);
      ExtrasAfterGives(m, init, last.name);
      assert ExtrasEntryTouch(ExtrasAfter(m, init), last, k) == ExtrasEntryTouch(m, last, k);
    }
  }

  lemma EntryTouchIn(m: Memory, e: Event, k: Argv, t: Touch)
    requires e.Sync? && DistinctNames(e.ifaces)
    ensures t in EntryTouches(m, e, k) <==>
            || (exists iface :: iface in e.ifaces && FromIface(m, e.driver, iface, k, t))
            || (exists n :: n in e.order && t == RemoveTouch(Lookup(m.managed, n).policyRoutes, k))
  {
    hide IfaceEntryTouches, StaleEntryTouches, ExtrasEntryTouches, PolicyTouch, RemoveTouch, Lookup, ExtrasEntryTouch,
         DistinctNames;
    PolicyTouchIn(m.managed, Driven(e.driver, e.ifaces), k, t);
    RemoveTouchIn(m.managed, e.order, k, t);
    CustomTouchIn(m.extras, e.ifaces, k, t);
  }

  lemma CustomTouch(m: ExtrasMap, iface: Interface, k: Argv)
    ensures var t := ExtrasEntryTouch(m, iface, k);
            && (t.wants <==> ListsEntry(iface.extras, k))
            && (!t.wants ==> (t.drops > 0 <==> ListsEntry(ExtrasOf(m, iface.name), k)))
  {
    hide ExtrasReconcile.RuleList, ExtrasReconcile.EntryArgs, ExtrasReconcile.Copies;
  }

  // ---- one sync keeps the balance ---------------------------------------------------------------

  /** With the kernel engine, what a sync asks for is remembered. */
  lemma AskedIsClaim(m: Memory, e: Event, k: Argv)
    requires e.Sync? && e.driver.InKernel? && Proper(m, e) && EntryAskedFor(e, k)
    ensures Claims(Remember(m, e), k)
  {
    hide Keys, ListsEntry, ExtrasAfter, ByName, DistinctNames, WgDevice.Enumerates;
    var iface :| iface in e.ifaces && AsksEntry(e.driver, iface, k);
    var i :| 0 <= i < |e.ifaces| && e.ifaces[i] == iface;
    ByNameDistinct(e.ifaces, i);
    ExtrasAfterGives(m.extras, e.ifaces, iface.name);
    assert ListsEntry(iface.extras, k) ==> ListsEntry(ExtrasOf(ExtrasAfter(m.extras, e.ifaces), iface.name), k);
  }

  lemma WantedByLister(m: Memory, e: Event, k: Argv, t: Touch)
    requires e.Sync? && DistinctNames(e.ifaces) && t in EntryTouches(m, e, k) && t.wants
    ensures EntryAskedFor(e, k)
  {
    hide Keys, EntryTouches, KeysExcept, PolicyLines, ListsEntry, ExtrasEntryTouch, DistinctNames;
    EntryTouchIn(m, e, k, t);
    var iface :| iface in e.ifaces && FromIface(m, e.driver, iface, k, t);
    CustomTouch(m.extras, iface, k);
    assert AsksEntry(e.driver, iface, k);
  }

  /** A claim nobody renews is dropped by some touch. */
  lemma EntryClaimDropped(m: Memory, e: Event, k: Argv) returns (t: Touch)
    requires e.Sync? && Proper(m, e) && !EntryAskedFor(e, k)
    requires Claims(m, k) && !Claims(Remember(m, e), k)
    ensures t in EntryTouches(m, e, k) && t.drops > 0
  {
    hide Keys, ListsEntry, EntryTouches, PolicyTouch, RemoveTouch, ExtrasEntryTouch, ExtrasAfter, ByName,
         DistinctNames, WgDevice.Enumerates;
    if n :| n in m.managed && k in Keys(m.managed[n].policyRoutes) {
      t := PolicyClaimDropped(m, e, k, n);
    } else {
      var n :| ListsEntry(ExtrasOf(m.extras, n), k);
      ExtrasAfterGives(m.extras, e.ifaces, n);
      var iface :| iface in e.ifaces && iface.name == n;
      t := ExtrasEntryTouch(m.extras, iface, k);
      assert !AsksEntry(e.driver, iface, k);
      CustomTouch(m.extras, iface, k);
      assert FromIface(m, e.driver, iface, k, t);
      EntryTouchIn(m, e, k, t);
    }
  }

  lemma PolicyClaimDropped(m: Memory, e: Event, k: Argv, n: string) returns (t: Touch)
    requires e.Sync? && Proper(m, e) && !EntryAskedFor(e, k)
    requires n in m.managed && k in Keys(m.managed[n].policyRoutes)
    ensures t in EntryTouches(m, e, k) && t.drops > 0
  {
    hide Keys, ListsEntry, EntryTouches, PolicyTouch, ExtrasEntryTouch, DistinctNames;
    var was := m.managed[n].policyRoutes;
    if n in ByName(Driven(e.driver, e.ifaces)) {
      var iface := ByName(e.ifaces)[n];
      assert !AsksEntry(e.driver, iface, k);
      DroppedEntryIsDeleted(was, iface.policyRoutes, k);
      t := PolicyTouch(was, iface.policyRoutes, k);
      assert FromIface(m, e.driver, iface, k, t);
    } else {
      assert n in e.order;
      t := RemoveTouch(was, k);
    }
    EntryTouchIn(m, e, k, t);
  }

  lemma IdleEntry(m: Memory, d: Driver, iface: Interface, k: Argv, t: Touch)
    requires !Claims(m, k) && !AsksEntry(d, iface, k) && FromIface(m, d, iface, k, t)
    ensures t == NOTHING
  {
    hide Keys, PolicyTouch, ListsEntry, ExtrasEntryTouch;
    EmptyTextHasNoLines();
    DroppedEntryIsDeleted(Lookup(m.managed, iface.name).policyRoutes, iface.policyRoutes, k);
    CustomTouch(m.extras, iface, k);
  }

  lemma UnlistedUntouched(m: Memory, e: Event, k: Argv, c: nat)
    requires e.Sync? && Proper(m, e) && !Claims(m, k) && !EntryAskedFor(e, k)
    ensures Fold(c, EntryTouches(m, e, k)) == c
  {
    hide EntryTouches, FromIface, Claims, AsksEntry, DistinctNames;
    var ts := EntryTouches(m, e, k);
    forall i | 0 <= i < |ts| ensures ts[i] == NOTHING {
      EntryTouchIn(m, e, k, ts[i]);
      if iface :| iface in e.ifaces && FromIface(m, e.driver, iface, k, ts[i]) {
        IdleEntry(m, e.driver, iface, k, ts[i]);
      } else {
        var n :| n in e.order && ts[i] == RemoveTouch(Lookup(m.managed, n).policyRoutes, k);
        IdleRemoval(m, n, k);
      }
    }
    FoldUntouched(c, ts);
  }

  lemma IdleRemoval(m: Memory, n: string, k: Argv)
    requires !Claims(m, k)
    ensures RemoveTouch(Lookup(m.managed, n).policyRoutes, k) == NOTHING
  {
    hide Keys;
    EmptyTextHasNoLines();
  }

  lemma UnlistedUnclaimed(m: Memory, e: Event, k: Argv)
    requires e.Sync? && Proper(m, e) && !EntryAskedFor(e, k)
    requires forall n | n !in ByName(e.ifaces) :: !ListsEntry(ExtrasOf(m.extras, n), k)
    ensures !Claims(Remember(m, e), k)
  {
    hide Keys, ListsEntry, ExtrasAfter, DistinctNames, WgDevice.Enumerates;
    forall n ensures !ListsEntry(ExtrasOf(Remember(m, e).extras, n), k) {
      ExtrasAfterGives(m.extras, e.ifaces, n);
      if n in ByName(e.ifaces) {
        var iface := ByName(e.ifaces)[n];
        assert iface in e.ifaces && iface.name == n && !AsksEntry(e.driver, iface, k);
      }
    }
    forall iface | iface in Driven(e.driver, e.ifaces)
        ensures k !in Keys(iface.policyRoutes) { assert !AsksEntry(e.driver, iface, k); }
  }

  lemma AskedIsListed(e: Event, k: Argv)
    requires e.Sync?
    ensures EntryAskedFor(e, k) ==> Listed(e.ifaces, k)
    ensures e.driver.InKernel? && Listed(e.ifaces, k) ==> EntryAskedFor(e, k)
  {
    hide Keys, ListsEntry;
    if iface :| iface in e.ifaces && AsksEntry(e.driver, iface, k) { assert Lists(iface, k); }
    if iface :| iface in e.ifaces && Lists(iface, k) { assert e.driver.InKernel? ==> AsksEntry(e.driver, iface, k); }
  }

  lemma EntriesAreFold(m: Memory, e: Event, k: Argv, c: nat)
    requires e.Sync?
    ensures EntriesAfterEvent(m, e, k, c) == Fold(c, EntryTouches(m, e, k))
  {
    hide ApplyEntryTouches, ExtrasEntryTouches, Fold;
    FoldConcat(c, ApplyEntryTouches(m.managed, Driven(e.driver, e.ifaces), e.order, k),
               ExtrasEntryTouches(m.extras, e.ifaces, k));
  }

  lemma BalancedSync(m: Memory, e: Event, stray: bool, k: Argv, base: nat, c: nat)
    requires e.Sync? && Proper(m, e) && Balanced(m, stray, k, base, c)
    requires Listed(e.ifaces, k) ==> base == 0
    ensures Balanced(Remember(m, e), stray || (EntryAskedFor(e, k) && !Claims(Remember(m, e), k)), k, base,
                     EntriesAfterEvent(m, e, k, c))
  {
    hide EntriesAfterEvent, EntryTouches, Claims, Listed, Proper, Remember, EntryAskedFor;
    EntriesAreFold(m, e, k, c);
    AskedIsListed(e, k);
    if c == base && !Claims(m, k) && !Listed(m.desired, k) && !Listed(e.ifaces, k) {
      UnlistedUntouched(m, e, k, c);
      ClaimsNothingNew(m, e, k);
      RuleTheorems.DesiredOf(m, e);
    } else {
      RelistedOrGone(m, e, stray, k, c);
    }
  }

  lemma ClaimsNothingNew(m: Memory, e: Event, k: Argv)
    requires e.Sync? && Proper(m, e) && !Claims(m, k) && !EntryAskedFor(e, k)
    ensures !Claims(Remember(m, e), k)
  {
    hide EntryAskedFor, ByName, ListsEntry, Proper, Remember;
    UnlistedUnclaimed(m, e, k);
  }

  lemma RelistedOrGone(m: Memory, e: Event, stray: bool, k: Argv, c: nat)
    requires e.Sync? && Proper(m, e) && c <= 1 && (c == 1 ==> stray || Claims(m, k))
    ensures Fold(c, EntryTouches(m, e, k)) <= 1
    ensures Fold(c, EntryTouches(m, e, k)) == 1 ==> stray || EntryAskedFor(e, k) || Claims(Remember(m, e), k)
  {
    hide EntryTouches, Claims, Remember, DistinctNames, WgDevice.Enumerates, EntryAskedFor;
    var ts := EntryTouches(m, e, k);
    FoldAtMostOne(c, ts);
    if !Claims(Remember(m, e), k) && !EntryAskedFor(e, k) {
      forall t | t in ts ensures !t.wants {
        if t.wants { WantedByLister(m, e, k, t); }
      }
      FoldUnwanted(c, ts);
      if c == 1 && !stray {
        var t := EntryClaimDropped(m, e, k);
        FoldDropped(c, ts, t);
      }
    }
  }

  // ---- every run --------------------------------------------------------------------------------

  lemma {:induction false} TickEntryIn(ifaces: seq<Interface>, k: Argv, t: Touch)
    ensures t in TickEntryTouches(ifaces, k) <==>
            exists iface :: iface in ifaces && (t == Touch(0, k in Keys(iface.policyRoutes))
                                                || t == Touch(0, ListsEntry(iface.extras, k)))
  {
    hide Keys, ListsEntry;
    if ifaces != [] {
      assert ifaces == ifaces[..|ifaces| - 1] + [ifaces[|ifaces| - 1]];
      TickEntryIn(ifaces[..|ifaces| - 1], k, t);
    }
  }

  lemma TickGivesEntries(ifaces: seq<Interface>, k: Argv, c: nat)
    ensures Fold(c, TickEntryTouches(ifaces, k)) == if Listed(ifaces, k) then Max(1, c) else c
  {
    hide Keys, ListsEntry, TickEntryTouches;
    var ts := TickEntryTouches(ifaces, k);
    forall i | 0 <= i < |ts| ensures ts[i].drops == 0 && (ts[i].wants ==> Listed(ifaces, k)) {
      TickEntryIn(ifaces, k, ts[i]);
      if ts[i].wants {
        var iface :| iface in ifaces && (ts[i] == Touch(0, k in Keys(iface.policyRoutes))
                                         || ts[i] == Touch(0, ListsEntry(iface.extras, k)));
        assert Lists(iface, k);
      }
    }
    OnlyAdding(c, ts);
    if Listed(ifaces, k) {
      var iface :| iface in ifaces && Lists(iface, k);
      TickEntryIn(ifaces, k, Touch(0, true));
      var i :| 0 <= i < |ts| && ts[i] == Touch(0, true);
    }
  }

  lemma DesiredIsClaim(m: Memory, k: Argv)
    requires Watched(m) && Listed(m.desired, k)
    ensures Claims(m, k)
  {
    hide Keys, ListsEntry;
    var iface :| iface in m.desired && Lists(iface, k);
    assert ListsEntry(iface.extras, k) ==> ListsEntry(ExtrasOf(m.extras, iface.name), k);
  }

  lemma BalancedTick(m: Memory, e: Event, stray: bool, k: Argv, base: nat, c: nat)
    requires e.Tick? && Balanced(m, stray, k, base, c)
    ensures Balanced(m, stray || (Listed(m.desired, k) && !Claims(m, k)), k, base, EntriesAfterEvent(m, e, k, c))
  {
    hide Claims, Listed, TickEntryTouches, Fold;
    TickGivesEntries(m.desired, k, c);
  }

  ghost predicate EverListed(run: seq<Event>, k: Argv) {
    exists i :: 0 <= i < |run| && run[i].Sync? && Listed(run[i].ifaces, k)
  }

  /** Whatever configurations a run went through, under whatever engine and with whatever failures, the memory
      of the agent accounts for the copies of an entry it left on the host, except for strays. */
  lemma {:induction false} RunBalanced(run: seq<Event>, k: Argv, base: nat)
    requires ProperRun(run) && (EverListed(run, k) ==> base == 0)
    ensures Balanced(MemoryAfter(run), StrayEntry(run, k), k, base, EntriesAfterRun(run, k, base))
  {
    hide Listed, EntriesAfterEvent, Remember, ProperRun, Proper, Claims, StrayEntry, EntryAskedFor;
    if run == [] {
      NothingClaimed(k);
    } else {
      var init, last := run[..|run| - 1], run[|run| - 1];
      ProperPrefix(run);
      assert forall i | 0 <= i < |init| :: init[i] == run[i];
      RunBalanced(init, k, base);
      EntryStrayPush(run, k);
      var c := EntriesAfterRun(init, k, base);
      if last.Sync? {
        BalancedSync(MemoryAfter(init), last, StrayEntry(init, k), k, base, c);
      } else {
        BalancedTick(MemoryAfter(init), last, StrayEntry(init, k), k, base, c);
        TickRemembers(MemoryAfter(init), last);
      }
    }
  }

  lemma NothingClaimed(k: Argv)
    ensures !Claims(MemoryAfter([]), k) && !Listed(MemoryAfter([]).desired, k)
  {
    EmptyLists();
  }

  /** Under the kernel engine no entry strays. */
  lemma KernelRunsTrackEntries(run: seq<Event>, k: Argv)
    requires ProperRun(run) && AllKernel(run)
    ensures !StrayEntry(run, k)
  {
    hide Remember, ProperRun, Proper, EntryAskedFor, Listed, Claims, Watched, MemoryAfter;
    forall i | 0 <= i < |run| ensures !EntryStraysAt(run, k, i) {
      var m := MemoryAfter(run[..i]);
      ProperTake(run, i);
      KernelRunsWatch(run[..i]);
      if run[i].Sync? {
        if EntryAskedFor(run[i], k) { AskedIsClaim(m, run[i], k); }
      } else {
        TickRemembers(m, run[i]);
        if Listed(m.desired, k) { DesiredIsClaim(m, k); }
      }
    }
  }

  lemma AppendedEntry(run: seq<Event>, e: Event, k: Argv, base: nat)
    ensures (run + [e])[..|run|] == run
    ensures MemoryAfter(run + [e]) == Remember(MemoryAfter(run), e)
    ensures EntriesAfterRun(run + [e], k, base) == EntriesAfterEvent(MemoryAfter(run), e, k,
                                                                     EntriesAfterRun(run, k, base))
    ensures ProperRun(run + [e]) ==> ProperRun(run) && Proper(MemoryAfter(run), e)
    ensures EverListed(run + [e], k) <==> EverListed(run, k) || (e.Sync? && Listed(e.ifaces, k))
  {
    hide Remember, EntriesAfterEvent, Proper, Listed;
    assert (run + [e])[..|run|] == run && (run + [e])[|run|] == e;
    if ProperRun(run + [e]) { ProperPrefix(run + [e]); }
    assert forall i | 0 <= i < |run| :: (run + [e])[i] == run[i];
  }

  lemma AppendedEntryStray(run: seq<Event>, e: Event, k: Argv)
    requires e.Sync? && !EntryAskedFor(e, k)
    ensures StrayEntry(run + [e], k) <==> StrayEntry(run, k)
  {
    hide Claims, Remember, MemoryAfter, EntryAskedFor, Listed;
    assert (run + [e])[..|run|] == run && (run + [e])[|run|] == e;
    EntryStrayPush(run + [e], k);
  }

  lemma TickAddsEntry(m: Memory, e: Event, k: Argv, c: nat)
    requires e.Tick?
    ensures Remember(m, e) == m
    ensures EntriesAfterEvent(m, e, k, c) == if Listed(m.desired, k) then Max(1, c) else c
  {
    hide Listed, TickEntryTouches;
    TickGivesEntries(m.desired, k, c);
  }

  // ---- the custom phase of one sync -------------------------------------------------------------

  /** The interface had the entry as a custom rule when it was visited last and has it no more. */
  predicate JustDroppedEntry(x: ExtrasMap, iface: Interface, k: Argv) {
    ListsEntry(ExtrasOf(x, iface.name), k) && !ListsEntry(iface.extras, k)
  }

  ghost predicate ListsEntryLast(x: ExtrasMap, ifaces: seq<Interface>, k: Argv, i: int) {
    0 <= i < |ifaces| && ListsEntry(ifaces[i].extras, k) && forall j | i < j < |ifaces| ::
        !JustDroppedEntry(x, ifaces[j], k)
  }

  /** Some interface lists the entry and no later one just dropped it, or it was there and none just dropped
      it. */
  ghost predicate EntryLeaves(x: ExtrasMap, ifaces: seq<Interface>, k: Argv, c: nat) {
    || (exists i :: ListsEntryLast(x, ifaces, k, i))
    || (c == 1 && forall j | 0 <= j < |ifaces| :: !JustDroppedEntry(x, ifaces[j], k))
  }

  lemma EntryLeavesPush(x: ExtrasMap, ifaces: seq<Interface>, k: Argv, c: nat)
    requires ifaces != []
    ensures var init, last := ifaces[..|ifaces| - 1], ifaces[|ifaces| - 1];
            EntryLeaves(x, ifaces, k, c) <==>
              ListsEntry(last.extras, k) || (!JustDroppedEntry(x, last, k) && EntryLeaves(x, init, k, c))
  {
    hide ListsEntry;
    var m := |ifaces| - 1;
    var init, last := ifaces[..m], ifaces[m];
    assert forall i | 0 <= i < m :: init[i] == ifaces[i];
    if ListsEntry(last.extras, k) { assert ListsEntryLast(x, ifaces, k, m); }
    if i :| ListsEntryLast(x, ifaces, k, i) {
      if i < m { assert ListsEntryLast(x, init, k, i); }
    }
    if !JustDroppedEntry(x, last, k) {
      if i :| ListsEntryLast(x, init, k, i) { assert ListsEntryLast(x, ifaces, k, i); }
    }
  }

  lemma {:induction false} CustomEntryPhase(x: ExtrasMap, ifaces: seq<Interface>, k: Argv, c: nat)
    requires DistinctNames(ifaces) && c <= 1
    ensures Fold(c, ExtrasEntryTouches(x, ifaces, k)) == if EntryLeaves(x, ifaces, k, c) then 1 else 0
  {
    hide ListsEntry, ExtrasReconcile.RuleTouch, ExtrasAfter, EntryLeaves;
    if ifaces == [] {
      NoneListsEntry(x, k, c);
    } else {
      var init, last := ifaces[..|ifaces| - 1], ifaces[|ifaces| - 1];
      assert ifaces == init + [last];
      CustomEntryPhase(x, init, k, c);
      EntryLeavesPush(x, ifaces, k, c);
      ExtrasAfterGives(x, init, last.name);
      assert ExtrasEntryTouch(ExtrasAfter(x, init), last, k) == ExtrasEntryTouch(x, last, k);
      CustomTouch(x, last, k);
      FoldPush(c, ExtrasEntryTouches(x, init, k), ExtrasEntryTouch(x, last, k));
    }
  }

  lemma NoneListsEntry(x: ExtrasMap, k: Argv, c: nat)
    requires c <= 1
    ensures EntryLeaves(x, [], k, c) <==> c == 1
    ensures Fold(c, ExtrasEntryTouches(x, [], k)) == c
  {
    assert forall i :: !ListsEntryLast(x, [], k, i);
  }

  /** What one sync leaves of an entry, under any engine and whether it failed or not: the custom rules have the
      last word over what the engine left of the policy lines. */
  lemma CustomEntryPresentIff(m: Memory, e: Event, k: Argv, c: nat)
    requires e.Sync? && Proper(m, e) && c <= 1
    ensures var applied := Fold(c, ApplyEntryTouches(m.managed, Driven(e.driver, e.ifaces), e.order, k));
            && applied <= 1
            && EntriesAfterEvent(m, e, k, c) == if EntryLeaves(m.extras, e.ifaces, k, applied) then 1 else 0
  {
    hide ApplyEntryTouches, ExtrasEntryTouches, EntryLeaves, DistinctNames, WgDevice.Enumerates;
    FoldAtMostOne(c, ApplyEntryTouches(m.managed, Driven(e.driver, e.ifaces), e.order, k));
    CustomEntryPhase(m.extras, e.ifaces, k, Fold(c, ApplyEntryTouches(m.managed, Driven(e.driver, e.ifaces), e.order,
                                                                      k)));
  }

  /** An entry some interface lists as a custom rule is there after every sync of any run, under whatever engine and
      with whatever failures, exactly when no interface after its last lister just dropped it. */
  lemma CustomEntriesExact(run: seq<Event>, e: Event, k: Argv, base: nat)
    requires e.Sync? && ProperRun(run + [e])
    requires exists iface :: iface in e.ifaces && ListsEntry(iface.extras, k)
    requires EverListed(run + [e], k) ==> base == 0
    ensures var x := MemoryAfter(run).extras;
            EntriesAfterRun(run + [e], k, base) == if exists i :: ListsEntryLast(x, e.ifaces, k, i) then 1 else 0
  {
    hide EntriesAfterEvent, ProperRun, EverListed, ListsEntry, StrayEntry, Claims, MemoryAfter, ApplyEntryTouches, Keys;
    AppendedEntry(run, e, k, base);
    RunBalanced(run, k, base);
    var iface :| iface in e.ifaces && ListsEntry(iface.extras, k);
    assert Lists(iface, k);
    CustomEntryPresentIff(MemoryAfter(run), e, k, EntriesAfterRun(run, k, base));
    var i :| 0 <= i < |e.ifaces| && e.ifaces[i] == iface;
    assert (forall j | 0 <= j < |e.ifaces| :: !JustDroppedEntry(MemoryAfter(run).extras, e.ifaces[j], k))
           ==> ListsEntryLast(MemoryAfter(run).extras, e.ifaces, k, i);
  }

  // ---- entries nobody lists any more ------------------------------------------------------------

  /** The pass over this interface deletes entry k unless the interface asks for it. */
  predicate DropsEntry(m: Memory, d: Driver, iface: Interface, k: Argv) {
    (d.InKernel? && k in Keys(Lookup(m.managed, iface.name).policyRoutes))
        || ListsEntry(ExtrasOf(m.extras, iface.name), k)
  }

  /** The sync deletes entry k, if it does not ask for it. The custom rules of a vanished interface are not
      among what it looks at. */
  ghost predicate EntryDropped(m: Memory, e: Event, k: Argv)
    requires e.Sync?
  {
    || (exists iface :: iface in e.ifaces && DropsEntry(m, e.driver, iface, k))
    || exists n :: n in StaleNames(m.managed, Driven(e.driver, e.ifaces)) && k in Keys(m.managed[n].policyRoutes)
  }

  lemma UnlistedTouch(m: Memory, d: Driver, iface: Interface, k: Argv, t: Touch)
    requires !AsksEntry(d, iface, k) && FromIface(m, d, iface, k, t)
    ensures t.drops > 0 ==> DropsEntry(m, d, iface, k)
  {
    hide Keys, PolicyTouch, ListsEntry, ExtrasEntryTouch;
    DroppedEntryIsDeleted(Lookup(m.managed, iface.name).policyRoutes, iface.policyRoutes, k);
    CustomTouch(m.extras, iface, k);
  }

  lemma EntryDropper(m: Memory, e: Event, k: Argv) returns (t: Touch)
    requires e.Sync? && Proper(m, e) && !EntryAskedFor(e, k) && EntryDropped(m, e, k)
    ensures t in EntryTouches(m, e, k) && t.drops > 0
  {
    hide Keys, ListsEntry, EntryTouches, PolicyTouch, ExtrasEntryTouch, DistinctNames, ByName;
    if iface :| iface in e.ifaces && DropsEntry(m, e.driver, iface, k) {
      assert !AsksEntry(e.driver, iface, k);
      var was := Lookup(m.managed, iface.name).policyRoutes;
      DroppedEntryIsDeleted(was, iface.policyRoutes, k);
      CustomTouch(m.extras, iface, k);
      t := if e.driver.InKernel? && k in Keys(was) then PolicyTouch(was, iface.policyRoutes, k)
          else ExtrasEntryTouch(m.extras, iface, k);
      assert FromIface(m, e.driver, iface, k, t);
    } else {
      var n :| n in StaleNames(m.managed, Driven(e.driver, e.ifaces)) && k in Keys(m.managed[n].policyRoutes);
      t := RemoveTouch(m.managed[n].policyRoutes, k);
      assert n in e.order;
    }
    EntryTouchIn(m, e, k, t);
  }

  /** An entry the sync does not ask for is gone afterwards exactly when the sync drops it. */
  lemma UnlistedOutcome(m: Memory, e: Event, k: Argv, c: nat)
    requires e.Sync? && Proper(m, e) && c <= 1 && !EntryAskedFor(e, k)
    ensures EntriesAfterEvent(m, e, k, c) == if EntryDropped(m, e, k) then 0 else c
  {
    hide EntryTouches, EntriesAfterEvent, FromIface, DropsEntry, Keys, AsksEntry, DistinctNames, ByName;
    EntriesAreFold(m, e, k, c);
    var ts := EntryTouches(m, e, k);
    forall t | t in ts ensures !t.wants && (t.drops > 0 ==> EntryDropped(m, e, k)) {
      EntryTouchIn(m, e, k, t);
      if t.wants { WantedByLister(m, e, k, t); }
      if iface :| iface in e.ifaces && FromIface(m, e.driver, iface, k, t) {
        UnlistedTouch(m, e.driver, iface, k, t);
      }
    }
    FoldAtMostOne(c, ts);
    if EntryDropped(m, e, k) {
      var t := EntryDropper(m, e, k);
      FoldDropped(c, ts, t);
    } else {
      FoldKept(c, ts);
    }
  }

  /** A successful sync and a tick, for any run: the host holds its own copies of an entry plus one if the newest
      configuration lists it, if and only if it does list it, or no copy of the agent's was left, or the sync
      drops it. */
  lemma TickedEntriesExactIff(run: seq<Event>, e: Event, tick: Event, k: Argv, base: nat)
    requires e.Sync? && e.driver.Succeeds() && tick.Tick? && ProperRun(run + [e])
    requires EverListed(run + [e], k) ==> base == 0
    ensures var m, c := MemoryAfter(run), EntriesAfterRun(run, k, base);
            EntriesAfterRun(run + [e] + [tick], k, base) == base + (if Listed(e.ifaces, k) then 1 else 0)
            <==> Listed(e.ifaces, k) || c == base || EntryDropped(m, e, k)
  {
    hide Listed, Claims, ProperRun, EntriesAfterEvent, EntryDropped, Proper, EverListed, StrayEntry, EntryAskedFor;
    AppendedEntry(run, e, k, base);
    AppendedEntry(run + [e], tick, k, base);
    RunBalanced(run, k, base);
    RunBalanced(run + [e], k, base);
    var m, c := MemoryAfter(run), EntriesAfterRun(run, k, base);
    RuleTheorems.DesiredOf(m, e);
    AskedIsListed(e, k);
    TickAddsEntry(MemoryAfter(run + [e]), tick, k, EntriesAfterRun(run + [e], k, base));
    if !Listed(e.ifaces, k) {
      if base == 0 {
        UnlistedOutcome(m, e, k, c);
      } else {
        UnlistedUntouched(m, e, k, c);
        EntriesAreFold(m, e, k, c);
      }
    }
  }

  /** No interface outside the configuration still has the entry in the memory of custom entries. */
  ghost predicate NoLeftoverEntry(m: Memory, ifaces: seq<Interface>, k: Argv) {
    forall n | n !in ByName(ifaces) :: !ListsEntry(ExtrasOf(m.extras, n), k)
  }

  lemma NoLeftoverUnclaimed(m: Memory, e: Event, k: Argv)
    requires e.Sync? && Proper(m, e) && !EntryAskedFor(e, k) && NoLeftoverEntry(m, e.ifaces, k)
    ensures !Claims(Remember(m, e), k)
  {
    hide EntryAskedFor, ListsEntry, Proper, Remember, ByName;
    UnlistedUnclaimed(m, e, k);
  }

  /** In particular it does after any run in which nothing strayed and no vanished interface left the entry
      behind, although the interfaces may have deleted each other's entries on the way. */
  lemma TickedEntriesExact(run: seq<Event>, e: Event, tick: Event, k: Argv, base: nat)
    requires e.Sync? && e.driver.Succeeds() && tick.Tick? && ProperRun(run + [e])
    requires EverListed(run + [e], k) ==> base == 0
    requires NoLeftoverEntry(MemoryAfter(run), e.ifaces, k) && !StrayEntry(run, k)
    ensures EntriesAfterRun(run + [e] + [tick], k, base) == base + if Listed(e.ifaces, k) then 1 else 0
  {
    hide Listed, Claims, ProperRun, EntriesAfterEvent, EntryDropped, Proper, EverListed, StrayEntry, EntryAskedFor,
         NoLeftoverEntry;
    AppendedEntry(run, e, k, base);
    AppendedEntry(run + [e], tick, k, base);
    RunBalanced(run + [e], k, base);
    RuleTheorems.DesiredOf(MemoryAfter(run), e);
    AskedIsListed(e, k);
    TickAddsEntry(MemoryAfter(run + [e]), tick, k, EntriesAfterRun(run + [e], k, base));
    if !Listed(e.ifaces, k) {
      NoLeftoverUnclaimed(MemoryAfter(run), e, k);
      AppendedEntryStray(run, e, k);
    }
  }

  // How long a copy nobody lists lasts.

  ghost predicate EntryDropsAt(run: seq<Event>, more: seq<Event>, k: Argv, i: int) {
    0 <= i < |more| && more[i].Sync? && EntryDropped(MemoryAfter(run + more[..i]), more[i], k)
  }

  ghost predicate EntryRestoredLast(run: seq<Event>, more: seq<Event>, k: Argv, i: int) {
    && 0 <= i < |more| && more[i].Tick? && Listed(MemoryAfter(run + more[..i]).desired, k)
    && forall j | i < j < |more| :: !EntryDropsAt(run, more, k, j)
  }

  /** Some tick puts the entry back and no later sync drops it, or it was there and no sync drops it. */
  ghost predicate EntryLasts(run: seq<Event>, more: seq<Event>, k: Argv, c: nat) {
    || (exists i :: EntryRestoredLast(run, more, k, i))
    || (c == 1 && forall j | 0 <= j < |more| :: !EntryDropsAt(run, more, k, j))
  }

  lemma EntryLastsPush(run: seq<Event>, more: seq<Event>, k: Argv, c: nat)
    requires more != []
    ensures var n := |more| - 1;
            EntryLasts(run, more, k, c) <==>
              || (more[n].Tick? && Listed(MemoryAfter(run + more[..n]).desired, k))
              || (!EntryDropsAt(run, more, k, n) && EntryLasts(run, more[..n], k, c))
  {
    hide EntryDropped, MemoryAfter, Listed;
    var n := |more| - 1;
    var init := more[..n];
    forall i | 0 <= i < n ensures init[..i] == more[..i] && init[i] == more[i] { }
    assert forall i | 0 <= i < n :: EntryDropsAt(run, init, k, i) <==> EntryDropsAt(run, more, k, i);
    if more[n].Tick? && Listed(MemoryAfter(run + more[..n]).desired, k) { assert EntryRestoredLast(run, more, k, n); }
    if i :| EntryRestoredLast(run, more, k, i) {
      if i < n { assert EntryRestoredLast(run, init, k, i); }
    }
    if !EntryDropsAt(run, more, k, n) {
      if i :| EntryRestoredLast(run, init, k, i) { assert EntryRestoredLast(run, more, k, i); }
    }
  }

  lemma NoEntryDropped(run: seq<Event>, k: Argv, c: nat)
    ensures EntryLasts(run, [], k, c) <==> c == 1
  {
    assert forall i :: !EntryRestoredLast(run, [], k, i);
  }

  /** Over any further run whose syncs never ask for the entry, it is there at the end exactly when the last to
      touch it was a tick whose recorded state lists it, or it was there before and no sync dropped it. */
  lemma {:induction false} LeftoverEntryLastsIff(run: seq<Event>, more: seq<Event>, k: Argv, base: nat)
    requires ProperRun(run + more) && EntriesAfterRun(run, k, base) <= 1
    requires forall i | 0 <= i < |more| && more[i].Sync? :: !EntryAskedFor(more[i], k)
    ensures EntriesAfterRun(run + more, k, base) == if EntryLasts(run, more, k, EntriesAfterRun(run, k, base)) then 1
            else 0
  {
    hide EntriesAfterEvent, EntriesAfterRun, MemoryAfter, ProperRun, Listed, EntryDropped, EntryLasts, Proper,
         Remember, EverListed, EntryAskedFor;
    var c0 := EntriesAfterRun(run, k, base);
    if more == [] {
      assert run + more == run;
      NoEntryDropped(run, k, c0);
    } else {
      var n := |more| - 1;
      var init, e := more[..n], more[n];
      assert run + more == (run + init) + [e];
      assert forall i | 0 <= i < n :: init[i] == more[i];
      AppendedEntry(run + init, e, k, base);
      LeftoverEntryLastsIff(run, init, k, base);
      EntryLastsPush(run, more, k, c0);
      var m, c := MemoryAfter(run + init), EntriesAfterRun(run + init, k, base);
      if e.Sync? {
        UnlistedOutcome(m, e, k, c);
      } else {
        TickAddsEntry(m, e, k, c);
      }
    }
  }

  /** After a sync with sing-box a following sync drops an entry exactly when some interface it desires is
      remembered to have listed it as a custom rule. */
  lemma AfterSingBoxEntryDropsIff(m: Memory, f: Event, g: Event, k: Argv)
    requires f.Sync? && f.driver.InSingBox? && g.Sync?
    ensures var m' := Remember(m, f);
            EntryDropped(m', g, k) <==>
                exists iface :: iface in g.ifaces
                  && ListsEntry(ExtrasOf(m'.extras, iface.name), k)
  {
    hide ListsEntry, Keys, ExtrasAfter;
    var m' := Remember(m, f);
    EmptyTextHasNoLines();
    if iface :| iface in g.ifaces && ListsEntry(ExtrasOf(m'.extras, iface.name), k) {
      assert DropsEntry(m', g.driver, iface, k);
    }
  }

  /** After a failed sync that does not ask for an entry, and a tick, the entry is there exactly when the
      recorded, older state lists it, as a policy line or as a custom rule, or it was there and the sync did
      not drop it. The next sync, when it does not ask for it either, removes it exactly when some interface
      it desires is remembered to have listed it as a custom rule. */
  lemma FailedSyncEntryOutcome(run: seq<Event>, f: Event, tick: Event, g: Event, k: Argv, base: nat)
    requires f.Sync? && !f.driver.Succeeds() && tick.Tick? && g.Sync? && ProperRun(run + [f] + [tick] + [g])
    requires EntriesAfterRun(run, k, base) <= 1 && !EntryAskedFor(f, k)
    ensures var m, c := MemoryAfter(run), EntriesAfterRun(run, k, base); var m' := Remember(m, f);
            var ticked := EntriesAfterRun(run + [f] + [tick], k, base);
            && ticked == (if Listed(m.desired, k) || (c == 1 && !EntryDropped(m, f, k)) then 1 else 0)
            && (!EntryAskedFor(g, k) ==>
                  EntriesAfterRun(run + [f] + [tick] + [g], k, base)
                  == if exists iface :: iface in g.ifaces && ListsEntry(ExtrasOf(m'.extras, iface.name), k) then 0
                      else ticked)
  {
    hide EntriesAfterEvent, EntriesAfterRun, MemoryAfter, ProperRun, Listed, EntryDropped, Proper, EverListed,
         EntryAskedFor, ExtrasAfter, ListsEntry;
    var m, c := MemoryAfter(run), EntriesAfterRun(run, k, base);
    AppendedEntry(run + [f] + [tick], g, k, base);
    AppendedEntry(run + [f], tick, k, base);
    AppendedEntry(run, f, k, base);
    ProperPrefix(run + [f] + [tick] + [g]);
    ProperPrefix(run + [f] + [tick]);
    UnlistedOutcome(m, f, k, c);
    RuleTheorems.DesiredOf(m, f);
    TickAddsEntry(Remember(m, f), tick, k, EntriesAfterRun(run + [f], k, base));
    AfterSingBoxEntryDropsIff(m, f, g, k);
    if !EntryAskedFor(g, k) {
      UnlistedOutcome(Remember(m, f), g, k, EntriesAfterRun(run + [f] + [tick], k, base));
    }
  }

  // ---- vanished interfaces ----------------------------------------------------------------------

  /** The custom ip rules of an interface that vanishes stay: after adding and removing an interface an
      entry the host did not have is there exactly when the interface listed it as a custom rule and in no
      policy line. */
  lemma VanishedEntryStaysIff(net: Net, a: Interface, links: seq<LinkConfig>, k: Argv)
    ensures ProperRun(RuleTheorems.AddRemove(a, links))
    ensures EntriesAfterRun(RuleTheorems.AddRemove(a, links), k, 0)
            == if ListsEntry(a.extras, k) && k !in Keys(a.policyRoutes) then 1 else 0
  {
    hide Keys, ListsEntry, EntriesAfterEvent, EntriesAfterRun, MemoryAfter, ProperRun, Proper, EntryDropped,
         EverListed, StrayEntry;
    var e, f := Sync([a], links, [], InKernel), Sync([], links, [a.name], InKernel);
    RuleTheorems.OneSync(net, a, links);
    RuleTheorems.AddRemoveProper(net, a, links);
    assert [] + [e] == [e];
    AppendedEntry([], e, k, 0);
    AppendedEntry([e], f, k, 0);
    RunBalanced([e], k, 0);
    NothingBefore(k);
    UnlistedOutcome(MemoryAfter([e]), f, k, EntriesAfterRun([e], k, 0));
    VanishedDrops(net, a, links, k);
    if Lists(a, k) { FirstSyncListsEntry(a, links, k); } else { UnlistedOutcome(START, e, k, 0); }
  }

  lemma NothingBefore(k: Argv)
    ensures MemoryAfter([]) == START && EntriesAfterRun([], k, 0) == 0
  {
  }

  lemma VanishedDrops(net: Net, a: Interface, links: seq<LinkConfig>, k: Argv)
    ensures EntryDropped(MemoryAfter([Sync([a], links, [], InKernel)]), Sync([], links, [a.name], InKernel), k) <==>
            k in Keys(a.policyRoutes)
    ensures !Listed([], k)
  {
    hide Keys, MemoryAfter, ByName;
    RuleTheorems.OneSync(net, a, links);
    assert ByName([]) == map[];
    assert StaleNames(map[a.name := a], []) == {a.name};
  }

  lemma FirstSyncListsEntry(a: Interface, links: seq<LinkConfig>, k: Argv)
    requires Lists(a, k)
    ensures EntriesAfterEvent(START, Sync([a], links, [], InKernel), k, 0) == 1
  {
    hide Keys, ListsEntry, ExtrasEntryTouch, EntriesAfterEvent;
    var e := Sync([a], links, [], InKernel);
    EntriesAreFold(START, e, k, 0);
    var p, x := PolicyTouch("", a.policyRoutes, k), ExtrasEntryTouch(map[], a, k);
    assert [a][..0] == [];
    assert Lookup(START.managed, a.name).policyRoutes == "";
    assert EntryTouches(START, e, k) == [] + [p, x] by {
      assert ExtrasEntryTouches(map[], [a], k) == [x];
      assert IfaceEntryTouches(map[], [a], k) == [p];
    }
    FoldTwo(0, [], p, x);
    CustomTouch(map[], a, k);
    NoCustom(k);
  }

  lemma NoCustom(k: Argv)
    ensures !ListsEntry(NO_EXTRAS, k)
  {
    EmptyLists();
  }
}
