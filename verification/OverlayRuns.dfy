/** Whole runs seen by the overlay links (overlay/overlay.go): the `prev` of one pass is the `next` of
    the pass before it (node/controller.go), so what one pass achieves holds along every run. */
module OverlayRuns {
  import opened Host
  import opened Types
  import opened Counts
  import opened Nat
  import opened Policy
  import opened KernelEngine
  import opened SyncEffects
  import opened RuleRuns
  import OverlayLink
  import OverlayFirewall
  import Overlay
  import OverlayConvergence

  /** Some configuration of the run lists a link of this name. */
  ghost predicate EverNamed(run: seq<Event>, n: string) {
    exists i :: 0 <= i < |run| && run[i].Sync? && Overlay.Names(run[i].links, n)
  }

  lemma NamedPush(run: seq<Event>, e: Event, n: string)
    ensures EverNamed(run + [e], n) <==> EverNamed(run, n) || (e.Sync? && Overlay.Names(e.links, n))
  {
    hide Overlay.Names;
    assert forall i | 0 <= i < |run| :: (run + [e])[i] == run[i];
    assert (run + [e])[|run|] == e;
  }

  lemma MemoryPush(run: seq<Event>, e: Event)
    ensures MemoryAfter(run + [e]) == Remember(MemoryAfter(run), e)
  {
    hide Remember;
    assert (run + [e])[..|run|] == run;
  }

  /** The links the agent remembers are named in the run. */
  lemma {:induction false} RememberedIsNamed(run: seq<Event>, n: string)
    requires Overlay.Names(MemoryAfter(run).vxlan, n)
    ensures EverNamed(run, n)
  {
    hide Overlay.Names, ExtrasAfter, ByName;
    if run == [] {
      NoNames(n);
      assert false;
    } else {
      var init, last := run[..|run| - 1], run[|run| - 1];
      assert run == init + [last];
      NamedPush(init, last, n);
      if last.Tick? { RememberedIsNamed(init, n); }
    }
  }

  lemma NoNames(n: string)
    ensures !Overlay.Names([], n)
  {
  }

  // ---- links ------------------------------------------------------------------------------------

  /** One event, seen by links and routes. After a failed engine the second pass of a sync is skipped; a tick
      restores the custom routes of the last recorded state and touches no link. */
  ghost predicate WireStep(src: LinkView, m: Memory, e: Event, w: Overlay.Wires, w': Overlay.Wires) {
    match e
    case Sync(ifaces, links, _, d) => w' == SyncWires(w, src, m.extras, ifaces, m.vxlan, links, d.Succeeds())
    case Tick(probe) => w' == Overlay.Wires(w.links, TickRoutes(w.routes, m.desired, probe))
  }

  ghost predicate WireRun(src: LinkView, run: seq<Event>, ws: seq<Overlay.Wires>) {
    |ws| == |run| + 1 && forall i | 0 <= i < |run| :: WireStep(src, MemoryAfter(run[..i]), run[i], ws[i], ws[i + 1])
  }

  ghost predicate LinkSame(a: Overlay.Links, b: Overlay.Links, n: string) {
    (n in a <==> n in b) && (n in a ==> a[n] == b[n])
  }

  /** One sync, seen by one link name. */
  lemma LinkStep(src: LinkView, m: Memory, e: Event, w: Overlay.Wires, w': Overlay.Wires, n: string)
    requires e.Sync? && OverlayConvergence.DistinctLinks(e.links) && WireStep(src, m, e, w, w') && n != ""
    ensures Overlay.Names(m.vxlan, n) && !Overlay.Names(e.links, n) ==> n !in w'.links
    ensures !Overlay.Names(m.vxlan, n) && !Overlay.Names(e.links, n) ==> LinkSame(w'.links, w.links, n)
  {
    hide Overlay.Reconciled, ExtrasRoutes, Overlay.Applicable, Overlay.Names, OverlayConvergence.LinkInPlace,
         Overlay.Reusable;
    var first := Overlay.Reconciled(w, src, m.vxlan, e.links);
    var custom := Overlay.Wires(first.links, ExtrasRoutes(first.routes, m.extras, e.ifaces));
    OverlayConvergence.LinksConverge(w, src, m.vxlan, e.links);
    OverlayConvergence.LinksConverge(custom, src, m.vxlan, e.links);
    if !Overlay.Names(e.links, n) { OverlayConvergence.NotListed(e.links, n); }
  }

  /** After a sync every applicable link of the configuration is in place, as far as the kernel's own
      rendering of it is accepted. */
  lemma LinkPlaced(src: LinkView, m: Memory, e: Event, w: Overlay.Wires, w': Overlay.Wires, c: LinkConfig)
    requires e.Sync? && OverlayConvergence.DistinctLinks(e.links) && WireStep(src, m, e, w, w')
    requires c in e.links && Overlay.Applicable(c) && OverlayConvergence.Buildable(src, c)
    ensures OverlayConvergence.LinkInPlace(src, w'.links, c)
  {
    hide Overlay.Reconciled, ExtrasRoutes, Overlay.Applicable, Overlay.Names, OverlayConvergence.LinkInPlace,
         OverlayConvergence.Buildable;
    var first := Overlay.Reconciled(w, src, m.vxlan, e.links);
    OverlayConvergence.LinksConverge(w, src, m.vxlan, e.links);
    OverlayConvergence.LinksConverge(Overlay.Wires(first.links, ExtrasRoutes(first.routes, m.extras, e.ifaces)), src,
                                     m.vxlan, e.links);
  }

  /** After a healthy sync every route an applicable link lists leaves the way that link says, also one
      that uses the device of another link which was rebuilt on the way: the second pass puts it back. */
  lemma RoutePlaced(src: LinkView, m: Memory, e: Event, w: Overlay.Wires, k: RouteKey)
    requires e.Sync? && OverlayConvergence.DistinctLinks(e.links) && OverlayConvergence.Attainable(w.links, src,
             e.links)
    requires OverlayConvergence.ListedVia(Overlay.Named(e.links), k).Some?
    ensures var r := SyncWires(w, src, m.extras, e.ifaces, m.vxlan, e.links, true).routes;
            k in r && r[k] == OverlayConvergence.ListedVia(Overlay.Named(e.links), k).value
  {
    hide Overlay.Reconciled, ExtrasRoutes, OverlayConvergence.ListedVia, OverlayConvergence.Swept, Overlay.Named,
         OverlayConvergence.LostLater, OverlayConvergence.LinkInPlace, Overlay.Applicable, Overlay.Reusable,
             OverlayConvergence.Buildable,
         Overlay.Names;
    var first := Overlay.Reconciled(w, src, m.vxlan, e.links);
    var custom := Overlay.Wires(first.links, ExtrasRoutes(first.routes, m.extras, e.ifaces));
    OverlayConvergence.LinksConverge(w, src, m.vxlan, e.links);
    OverlayConvergence.InPlaceLosesNothing(src, custom.links, e.links);
    OverlayConvergence.RoutesConverge(custom, src, m.vxlan, e.links, k);
  }

  lemma WireRunPrefix(src: LinkView, run: seq<Event>, ws: seq<Overlay.Wires>)
    requires run != [] && WireRun(src, run, ws)
    ensures WireRun(src, run[..|run| - 1], ws[..|run|])
    ensures WireStep(src, MemoryAfter(run[..|run| - 1]), run[|run| - 1], ws[|run| - 1], ws[|run|])
  {
    hide WireStep, MemoryAfter;
    var k := |run| - 1;
    forall i | 0 <= i < k ensures WireStep(src, MemoryAfter(run[..k][..i]), run[..k][i], ws[..k + 1][i],
                                           ws[..k + 1][i + 1]) {
      assert run[..k][..i] == run[..i];
    }
  }

  /** Links along any run. A link no configuration ever named is untouched; a link some earlier
      configuration named and the newest does not is gone, however many configurations ago it was
      dropped. */
  lemma {:induction false} LinksAlongRun(src: LinkView, run: seq<Event>, ws: seq<Overlay.Wires>, n: string)
    requires WireRun(src, run, ws) && n != ""
    requires forall i | 0 <= i < |run| && run[i].Sync? :: OverlayConvergence.DistinctLinks(run[i].links)
    ensures !EverNamed(run, n) ==> LinkSame(ws[|run|].links, ws[0].links, n)
    ensures EverNamed(run, n) && !Overlay.Names(MemoryAfter(run).vxlan, n) ==> n !in ws[|run|].links
  {
    hide WireStep, Overlay.Names, MemoryAfter, OverlayConvergence.DistinctLinks;
    if run != [] {
      var k := |run| - 1;
      var init, last := run[..k], run[k];
      assert run == init + [last];
      WireRunPrefix(src, run, ws);
      assert forall i | 0 <= i < k :: init[i] == run[i];
      LinksAlongRun(src, init, ws[..k + 1], n);
      NamedPush(init, last, n);
      MemoryPush(init, last);
      if Overlay.Names(MemoryAfter(init).vxlan, n) { RememberedIsNamed(init, n); }
      if last.Sync? {
        LinkStep(src, MemoryAfter(init), last, ws[k], ws[k + 1], n);
      } else {
        TickKeepsLinks(src, MemoryAfter(init), last, ws[k], ws[k + 1]);
        TickRemembers(MemoryAfter(init), last);
      }
    }
  }

  lemma TickKeepsLinks(src: LinkView, m: Memory, e: Event, w: Overlay.Wires, w': Overlay.Wires)
    requires e.Tick? && WireStep(src, m, e, w, w')
    ensures w'.links == w.links
  {
  }

  // ---- firewall rules ---------------------------------------------------------------------------

  /** Nothing but the overlay passes touches a rule of a link. */
  lemma OverlayOnly(net: Net, m: Memory, e: Event, r: Rule, c: nat)
    requires Proper(m, e) && OverlayShape(r)
    ensures CopiesAfterEvent(net, m, e, r, c)
            == if e.Tick? then c
               else
                 var once := Overlay.CopiesAfter(m.vxlan, e.links, r, c);
                 if e.driver.Succeeds() then Overlay.CopiesAfter(m.vxlan, e.links, r, once) else once
  {
    hide Owns, RulesOf, ListsRule, OverlayShape, ApplyTouches, NatEnsureTouches, ExtrasRuleTouches, TickTouches,
         Overlay.CopiesAfter, Proper, Fold;
    forall iface ensures !Mentions(net, iface, r) { OwnShapes(net, iface, r); }
    if e.Tick? {
      TickGives(m.desired, r, c);
      NotTicked(net, m.desired, r);
    } else {
      NobodyTouches(net, m, e, r);
      var a := ApplyTouches(net, m.managed, Driven(e.driver, e.ifaces), e.order, r);
      var b, x := NatEnsureTouches(net, e.ifaces, r), ExtrasRuleTouches(m.extras, e.ifaces, r);
      assert forall t :: t in SyncTouches(net, m, e, r) <==> t in a || t in b || t in x;
      var first := Overlay.CopiesAfter(m.vxlan, e.links, r, c);
      FoldIdle(c, a);
      FoldIdle(first, b);
      FoldIdle(first, x);
    }
  }

  lemma NotTicked(net: Net, ifaces: seq<Interface>, r: Rule)
    requires forall iface :: !Mentions(net, iface, r)
    ensures !TickAsks(ifaces, r)
  {
    hide RulesOf, ListsRule, Owns;
    assert forall iface :: Mentions(net, iface, r) <==>
        Owns(net, iface, r) || r in RulesOf(iface.policyRoutes)
        || ListsRule(iface.extras, r);
  }

  lemma FoldIdle(c: nat, ts: seq<Touch>)
    requires forall t | t in ts :: t == NOTHING
    ensures Fold(c, ts) == c
  {
    assert forall i | 0 <= i < |ts| :: ts[i] in ts;
    FoldUntouched(c, ts);
  }

  lemma NobodyTouches(net: Net, m: Memory, e: Event, r: Rule)
    requires e.Sync? && Proper(m, e) && forall iface :: !Mentions(net, iface, r)
    ensures forall t | t in SyncTouches(net, m, e, r) :: t == NOTHING
  {
    hide Mentions, SyncTouches, ByIface, ByStale, Forgotten;
    NobodyMentions(net, m, r);
    forall t | t in SyncTouches(net, m, e, r) ensures t == NOTHING {
      SyncTouchIn(net, m, e, r, t);
      if iface :| iface in e.ifaces && ByIface(net, m, e.driver, iface, r, t) {
        IdleIface(net, m, e.driver, iface, r, t);
      } else {
        var n :| n in e.order && ByStale(net, m, n, r, t);
        IdleStale(net, m, n, r, t);
      }
    }
  }

  lemma NobodyMentions(net: Net, m: Memory, r: Rule)
    requires forall iface :: !Mentions(net, iface, r)
    ensures Forgotten(net, m, r)
  {
    hide Owns, RulesOf, ListsRule;
    forall n ensures !ListsRule(ExtrasOf(m.extras, n), r) {
      assert !Mentions(net, NO_INTERFACE.(extras := ExtrasOf(m.extras, n)), r);
    }
  }

  lemma LinkRuleShape(n: string, r: Rule)
    requires r in OverlayFirewall.LinkRules(n)
    ensures OverlayShape(r) && n != ""
  {
  }

  /** One overlay pass, seen by a rule of one link. */
  lemma LinkRulePass(prev: seq<LinkConfig>, next: seq<LinkConfig>, n: string, r: Rule, c: nat)
    requires r in OverlayFirewall.LinkRules(n)
    ensures Overlay.Names(next, n) ==> Overlay.CopiesAfter(prev, next, r, c) <= 1
    ensures !Overlay.Names(next, n) && !Overlay.Names(prev, n) ==> Overlay.CopiesAfter(prev, next, r, c) == c
    ensures !Overlay.Names(next, n) && Overlay.Names(prev, n) && c <= OverlayFirewall.FORGET ==>
            Overlay.CopiesAfter(prev, next, r, c) == 0
  {
    hide OverlayFirewall.LinkRules, Overlay.CopiesAfter, Overlay.Managed;
    LinkRuleShape(n, r);
    if Overlay.Names(next, n) {
      var i :| 0 <= i < |next| && next[i].name == n;
      OverlayConvergence.LinkRuleIsManaged(next, i, r);
      OverlayConvergence.ManagedHasAtMostOne(prev, next, r, c);
    } else if Overlay.Names(prev, n) {
      OverlayConvergence.RemoveListMembers(prev, next, n);
      OverlayConvergence.ForgottenMembers(Overlay.RemoveList(prev, next), r);
      OverlayConvergence.RemovedRuleOutcome(prev, next, r, c);
    } else {
      OverlayConvergence.NotListed(next, n);
      OverlayConvergence.NotListed(prev, n);
      forall m ensures r in OverlayFirewall.LinkRules(m) ==> m == n { OverlayConvergence.LinkRulesNameOne(n, m, r); }
      OverlayConvergence.LinkRulesNameOne(n, n, r);
      OverlayConvergence.ForeignRuleUntouched(prev, next, r, c);
    }
  }

  /** Firewall rules of a link along any run. While the newest configuration names the link there is at
      most one copy of each rule, so when a later configuration drops the link nothing is left,
      whatever the host held before; the rules of a link nobody ever named are untouched. */
  lemma {:induction false} LinkRulesAlongRun(net: Net, run: seq<Event>, n: string, r: Rule, base: nat)
    requires ProperRun(run) && r in OverlayFirewall.LinkRules(n)
    ensures var c := CopiesAfterRun(net, run, r, base);
            && (!EverNamed(run, n) ==> c == base)
            && (Overlay.Names(MemoryAfter(run).vxlan, n) ==> c <= 1)
            && (EverNamed(run, n) && !Overlay.Names(MemoryAfter(run).vxlan, n) ==> c == 0)
  {
    hide OverlayFirewall.LinkRules, Overlay.Names, ProperRun, Proper, CopiesAfterEvent, ExtrasAfter, ByName,
         Overlay.CopiesAfter;
    if run == [] {
      NoNames(n);
    } else {
      var init, last := run[..|run| - 1], run[|run| - 1];
      assert run == init + [last];
      ProperPrefix(run);
      LinkRulesAlongRun(net, init, n, r, base);
      NamedPush(init, last, n);
      var m, c := MemoryAfter(init), CopiesAfterRun(net, init, r, base);
      LinkRuleShape(n, r);
      OverlayOnly(net, m, last, r, c);
      if last.Sync? {
        if Overlay.Names(m.vxlan, n) { RememberedIsNamed(init, n); }
        LinkRulePass(m.vxlan, last.links, n, r, c);
        LinkRulePass(m.vxlan, last.links, n, r, Overlay.CopiesAfter(m.vxlan, last.links, r, c));
      }
    }
  }

  /** Some configuration of the run lists a link at all. */
  ghost predicate EverLinked(run: seq<Event>) {
    exists i :: 0 <= i < |run| && run[i].Sync? && run[i].links != []
  }

  ghost predicate SomeApplicable(links: seq<LinkConfig>) {
    exists i | 0 <= i < |links| :: Overlay.Applicable(links[i])
  }

  /** Some configuration of the run has an applicable link. */
  ghost predicate EverApplicable(run: seq<Event>) {
    exists i :: 0 <= i < |run| && run[i].Sync? && SomeApplicable(run[i].links)
  }

  lemma EverPush(run: seq<Event>, e: Event)
    ensures EverLinked(run + [e]) <==> EverLinked(run) || (e.Sync? && e.links != [])
    ensures EverApplicable(run + [e]) <==> EverApplicable(run) || (e.Sync? && SomeApplicable(e.links))
    ensures e.Sync? && SomeApplicable(e.links) ==> e.links != []
  {
    hide SomeApplicable;
    assert forall i | 0 <= i < |run| :: (run + [e])[i] == run[i];
    assert (run + [e])[|run|] == e;
    if e.Sync? && SomeApplicable(e.links) { ApplicableIsLink(e.links); }
  }

  lemma ApplicableIsLink(links: seq<LinkConfig>)
    requires SomeApplicable(links)
    ensures links != []
  {
  }

  /** One overlay pass, seen by a protocol rule: it belongs to no link, so no removal takes it. */
  lemma ProtocolRulePass(prev: seq<LinkConfig>, next: seq<LinkConfig>, r: Rule, c: nat)
    requires r in OverlayFirewall.ProtocolRules()
    ensures Overlay.CopiesAfter(prev, next, r, c)
            == if SomeApplicable(next) then 1 else if next != [] then OverlayFirewall.AtMostOne(c) else c
  {
    hide OverlayFirewall.LinkRules, OverlayFirewall.ProtocolRules, Overlay.Applicable, Overlay.RemoveList,
         Overlay.Forgotten;
    OverlayConvergence.ForgottenMembers(Overlay.RemoveList(prev, next), r);
    forall n ensures r !in OverlayFirewall.LinkRules(n) {
      if r in OverlayFirewall.LinkRules(n) { OverlayConvergence.LinkRulesNameOne(n, n, r); }
    }
    ProtocolIsManaged(next, r);
    if i :| 0 <= i < |next| && Overlay.Applicable(next[i]) { assert r in Overlay.AllowedRules(next[i]); }
  }

  lemma ProtocolIsManaged(next: seq<LinkConfig>, r: Rule)
    requires r in OverlayFirewall.ProtocolRules()
    ensures Overlay.Managed(next, r) && OverlayShape(r)
  {
  }

  /** The rules that let the tunnel protocols in, along any run: as the host had them until a configuration lists a
      link, at most one copy until one has an applicable link, and exactly one from then on, also when the
      last link is gone. */
  lemma {:induction false} ProtocolRulesAlongRun(net: Net, run: seq<Event>, r: Rule, base: nat)
    requires ProperRun(run) && r in OverlayFirewall.ProtocolRules()
    ensures CopiesAfterRun(net, run, r, base)
            == if EverApplicable(run) then 1
               else if EverLinked(run) then OverlayFirewall.AtMostOne(base) else base
  {
    hide OverlayFirewall.ProtocolRules, ProperRun, Proper, CopiesAfterEvent, Overlay.CopiesAfter, SomeApplicable,
         EverLinked, EverApplicable, MemoryAfter;
    if run == [] {
      NeverLinked();
    } else {
      var init, last := run[..|run| - 1], run[|run| - 1];
      assert run == init + [last];
      ProperPrefix(run);
      ProtocolRulesAlongRun(net, init, r, base);
      EverPush(init, last);
      var m, c := MemoryAfter(init), CopiesAfterRun(net, init, r, base);
      ProtocolIsManaged([], r);
      OverlayOnly(net, m, last, r, c);
      if last.Sync? {
        ProtocolRulePass(m.vxlan, last.links, r, c);
        ProtocolRulePass(m.vxlan, last.links, r, Overlay.CopiesAfter(m.vxlan, last.links, r, c));
      }
    }
  }

  lemma NeverLinked()
    ensures !EverLinked([]) && !EverApplicable([])
  {
  }

  /** After a sync each rule of an applicable link has exactly one copy. */
  lemma LinkRulesPlaced(net: Net, m: Memory, e: Event, l: LinkConfig, r: Rule, c: nat)
    requires e.Sync? && Proper(m, e) && l in e.links && Overlay.Applicable(l) && r in Overlay.AllowedRules(l)
    ensures CopiesAfterEvent(net, m, e, r, c) == 1
  {
    hide Overlay.Applicable, Overlay.CopiesAfter, CopiesAfterEvent, Proper;
    assert OverlayShape(r);
    OverlayOnly(net, m, e, r, c);
    OverlayConvergence.NeededHasOneCopy(m.vxlan, e.links, l, r, c);
    OverlayConvergence.NeededHasOneCopy(m.vxlan, e.links, l, r, Overlay.CopiesAfter(m.vxlan, e.links, r, c));
  }
}
