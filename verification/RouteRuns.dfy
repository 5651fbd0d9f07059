/** Whole runs of syncs and watchdog ticks, seen by one destination of the routing table: the custom
    routes of the interfaces (extras/extras.go) next to the passes over the overlay links. */
module RouteRuns {
  import opened Host
  import opened Types
  import opened Counts
  import opened KernelEngine
  import opened SyncEffects
  import opened RuleRuns
  import opened ExtrasReconcile
  import ExtrasParser
  import OverlayRuns
  import OverlayLink
  import Overlay
  import OverlayConvergence
  import RuleTheorems
  import Text
  import WgDevice

  /** Some custom line sends the destination this way. */
  ghost predicate NamesRoute(x: Extras, k: RouteKey, via: Argv) {
    exists a :: a in RouteList(x.routes) && KeyFor(a) == k && ViaFor(a) == via
  }

  predicate ListsRoute(x: Extras, k: RouteKey) { LastVia(RouteList(x.routes), k).Some? }

  /** Some interface has a custom route for the destination. */
  ghost predicate RouteListed(ifaces: seq<Interface>, k: RouteKey) {
    exists iface :: iface in ifaces && ListsRoute(iface.extras, k)
  }

  ghost predicate SameAt(a: Routes, b: Routes, k: RouteKey) {
    (k in a <==> k in b) && (k in a ==> a[k] == b[k])
  }

  function RouteAt(routes: Routes, k: RouteKey): Option<Argv> {
    if k in routes then Some(routes[k]) else None
  }

  lemma ListsIffNames(x: Extras, k: RouteKey)
    ensures ListsRoute(x, k) <==> exists via :: NamesRoute(x, k, via)
    ensures ListsRoute(x, k) ==> NamesRoute(x, k, LastVia(RouteList(x.routes), k).value)
  {
    hide RouteList, KeyFor, ViaFor;
    if ListsRoute(x, k) {
      var a := LastViaIsListed(RouteList(x.routes), k);
      assert NamesRoute(x, k, ViaFor(a));
    }
    if via :| NamesRoute(x, k, via) {
      var a :| a in RouteList(x.routes) && KeyFor(a) == k && ViaFor(a) == via;
      ListedHasLast(RouteList(x.routes), a);
    }
  }

  /** Custom routes name a gateway and no device. */
  lemma NamesNoDevice(x: Extras, k: RouteKey, via: Argv)
    requires NamesRoute(x, k, via)
    ensures forall dev :: !UsesDevice(via, dev)
  {
    hide KeyFor, ViaFor, ExtrasParser.RouteCommand, Parsed, Text.Kept;
    var a :| a in RouteList(x.routes) && KeyFor(a) == k && ViaFor(a) == via;
    ParsedComeFromLines(ExtrasParser.RouteCommand, Text.Kept(x.routes), a);
    var line :| line in Text.Kept(x.routes) && ExtrasParser.RouteCommand(line) == Some(a);
    CommandShape(line);
    forall dev { GatewayIsNoDevice(a[4], dev); }
  }

  lemma GatewayIsNoDevice(gateway: string, dev: string)
    ensures !UsesDevice(["via", gateway], dev)
  {
    var via := ["via", gateway];
    assert via[0][0] == 'v' && "dev"[0] == 'd';
    assert PairValue(via[2..], "dev") == None;
  }

  lemma {:induction false} CustomRoutesMembers(ifaces: seq<Interface>, a: Argv)
    ensures a in CustomRoutes(ifaces) <==> exists iface :: iface in ifaces && a in RouteList(iface.extras.routes)
  {
    hide RouteList;
    if ifaces != [] {
      assert ifaces == ifaces[..|ifaces| - 1] + [ifaces[|ifaces| - 1]];
      CustomRoutesMembers(ifaces[..|ifaces| - 1], a);
    }
  }

  lemma ListedIffLast(ifaces: seq<Interface>, k: RouteKey)
    ensures RouteListed(ifaces, k) <==> LastVia(CustomRoutes(ifaces), k).Some?
  {
    hide RouteList, KeyFor, ViaFor, CustomRoutes;
    if LastVia(CustomRoutes(ifaces), k).Some? {
      var a := LastViaIsListed(CustomRoutes(ifaces), k);
      CustomRoutesMembers(ifaces, a);
      var iface :| iface in ifaces && a in RouteList(iface.extras.routes);
      ListedHasLast(RouteList(iface.extras.routes), a);
    }
    if iface :| iface in ifaces && ListsRoute(iface.extras, k) {
      var a := LastViaIsListed(RouteList(iface.extras.routes), k);
      CustomRoutesMembers(ifaces, a);
      ListedHasLast(CustomRoutes(ifaces), a);
    }
  }

  // ---- the overlay passes -----------------------------------------------------------------------

  /** Some link of the configuration lists a route for the destination. */
  ghost predicate LinkLists(cfgs: seq<LinkConfig>, k: RouteKey) {
    exists c, spec :: c in cfgs && spec in c.routes && RouteKeyOf(Text.Fields(spec)) == k
  }

  ghost predicate Through(cfgs: seq<LinkConfig>, via: Argv) {
    exists c :: c in cfgs && UsesDevice(via, c.name)
  }

  /** The overlay links have nothing to do with the destination: none lists it, and its route, if any,
      leaves through none of them. */
  ghost predicate Clear(cfgs: seq<LinkConfig>, routes: Routes, k: RouteKey) {
    !LinkLists(cfgs, k) && (k in routes ==> !Through(cfgs, routes[k]))
  }

  lemma {:induction false} NoSpec(specs: seq<string>, k: RouteKey)
    requires forall spec | spec in specs :: RouteKeyOf(Text.Fields(spec)) != k
    ensures OverlayConvergence.SpecVia(specs, k).None?
  {
    hide RouteKeyOf, Text.Fields;
    if specs != [] {
      assert specs == specs[..|specs| - 1] + [specs[|specs| - 1]];
      NoSpec(specs[..|specs| - 1], k);
    }
  }

  lemma {:induction false} StaleComesFromPrev(prev: seq<LinkConfig>, next: seq<LinkConfig>, spec: string)
    requires spec in Overlay.StaleList(prev, next)
    ensures exists c :: c in prev && spec in c.routes
  {
    hide Overlay.Names;
    var init, last := prev[..|prev| - 1], prev[|prev| - 1];
    assert prev == init + [last];
    OverlayConvergence.DroppedMembers(last.routes, Overlay.WantedRoutes(next, last.name), spec);
    if spec in Overlay.StaleList(init, next) { StaleComesFromPrev(init, next, spec); }
  }

  lemma {:induction false} EnsuringLeaves(w: Overlay.Wires, src: LinkView, cfgs: seq<LinkConfig>, k: RouteKey)
    requires Clear(cfgs, w.routes, k)
    ensures SameAt(Overlay.EnsureAll(w, src, cfgs).routes, w.routes, k)
  {
    hide UsesDevice, RouteKeyOf, Text.Fields, Overlay.Applicable, Overlay.EnsuredRoutes, Overlay.EnsuredLinks,
         Overlay.Rebuilt;
    if cfgs != [] {
      var init, last := cfgs[..|cfgs| - 1], cfgs[|cfgs| - 1];
      assert cfgs == init + [last];
      EnsuringLeaves(w, src, init, k);
      var mid := Overlay.EnsureAll(w, src, init);
      assert last in cfgs;
      NoSpec(last.routes, k);
      OverlayConvergence.EnsuredRoutesGives(mid.links, mid.routes, last, k);
    }
  }

  /** An overlay pass leaves alone a destination its links have nothing to do with. */
  lemma PassLeaves(w: Overlay.Wires, src: LinkView, prev: seq<LinkConfig>, next: seq<LinkConfig>, k: RouteKey)
    requires Clear(prev, w.routes, k) && Clear(next, w.routes, k)
    ensures SameAt(Overlay.Reconciled(w, src, prev, next).routes, w.routes, k)
  {
    hide UsesDevice, RouteKeyOf, RouteVia, Text.Fields, Overlay.EnsureAll, Overlay.RemoveAll, Overlay.DeleteSpecs,
         Overlay.RemoveList, Overlay.StaleList, Overlay.Named;
    var names, stale := Overlay.RemoveList(prev, next), Overlay.StaleList(prev, next);
    var removed := Overlay.RemoveAll(w, names);
    OverlayConvergence.RemoveAllRoutes(w, names, k);
    forall n | n in names ensures exists c :: c in prev && c.name == n {
      OverlayConvergence.RemoveListMembers(prev, next, n);
      var i :| 0 <= i < |prev| && prev[i].name == n;
      assert prev[i] in prev;
    }
    OverlayConvergence.DeleteSpecsGives(removed.routes, stale, k);
    forall spec | spec in stale ensures RouteKeyOf(Text.Fields(spec)) != k { StaleComesFromPrev(prev, next, spec); }
    assert Clear(Overlay.Named(next), removed.routes, k) by {
      OverlayConvergence.NamedFacts(next);
    }
    EnsuringLeaves(Overlay.Wires(removed.links, Overlay.DeleteSpecs(removed.routes, stale)), src, Overlay.Named(next),
                   k);
  }

  // ---- the custom routes of one sync ------------------------------------------------------------

  /** The memory of custom entries after a visit. */
  lemma VisitGives(x: ExtrasMap, iface: Interface, n: string)
    ensures ExtrasOf(ExtrasVisit(x, iface), n) == if n == iface.name then iface.extras else ExtrasOf(x, n)
  {
  }

  /** Some interface, desired or vanished, is remembered to have sent the destination this way. */
  ghost predicate RouteClaimed(x: ExtrasMap, k: RouteKey, via: Argv) {
    exists n :: NamesRoute(ExtrasOf(x, n), k, via)
  }

  ghost predicate NobodyLists(x: ExtrasMap, k: RouteKey) {
    forall n :: !ListsRoute(ExtrasOf(x, n), k)
  }

  /** After a visit a route is claimed, or it was there before and was not claimed then either. */
  lemma VisitClaims(routes: Routes, x: ExtrasMap, iface: Interface, k: RouteKey)
    ensures var r := RoutesAfter(routes, ExtrasOf(x, iface.name).routes, iface.extras.routes);
            k in r ==> || RouteClaimed(ExtrasVisit(x, iface), k, r[k])
                       || (k in routes && r[k] == routes[k] && !RouteClaimed(x, k, routes[k]))
  {
    hide RouteList, KeyFor, ViaFor, RoutesAfter, ExtrasVisit, Respelled;
    var before := ExtrasOf(x, iface.name).routes;
    var r := RoutesAfter(routes, before, iface.extras.routes);
    VisitGives(x, iface, iface.name);
    if k in r {
      if ListsRoute(iface.extras, k) {
        WantedRouteOutcome(routes, before, iface.extras.routes, k);
        ListsIffNames(iface.extras, k);
        assert NamesRoute(ExtrasOf(ExtrasVisit(x, iface), iface.name), k, r[k]);
      } else {
        UnwantedRouteOutcome(routes, before, iface.extras.routes, k);
        if n :| NamesRoute(ExtrasOf(x, n), k, routes[k]) {
          VisitGives(x, iface, n);
          assert n != iface.name;
          assert NamesRoute(ExtrasOf(ExtrasVisit(x, iface), n), k, r[k]);
        }
      }
    }
  }

  /** The same after visiting all interfaces. */
  lemma {:induction false} VisitsClaim(routes: Routes, x: ExtrasMap, ifaces: seq<Interface>, k: RouteKey)
    ensures var r := ExtrasRoutes(routes, x, ifaces);
            k in r ==> || RouteClaimed(ExtrasAfter(x, ifaces), k, r[k])
                       || (k in routes && r[k] == routes[k] && !RouteClaimed(x, k, routes[k]))
  {
    hide RoutesAfter, ExtrasVisit, RouteClaimed;
    if ifaces != [] {
      var init, last := ifaces[..|ifaces| - 1], ifaces[|ifaces| - 1];
      VisitsClaim(routes, x, init, k);
      VisitClaims(ExtrasRoutes(routes, x, init), ExtrasAfter(x, init), last, k);
    }
  }

  /** Where a custom route of the newest configuration ends up: with the way out of the last interface that lists
      the destination, and missing exactly when that interface only respelled it, or a later one had listed
      that very route before and does not any more. */
  lemma {:induction false} VisitsPlaceIff(routes: Routes, x: ExtrasMap, ifaces: seq<Interface>, k: RouteKey, i: nat)
    requires DistinctNames(ifaces) && i < |ifaces| && ListsRoute(ifaces[i].extras, k)
    requires forall j | i < j < |ifaces| :: !ListsRoute(ifaces[j].extras, k)
    ensures var r, via := ExtrasRoutes(routes, x, ifaces), LastVia(RouteList(ifaces[i].extras.routes), k).value;
            && (k in r <==>
                  && !Respelled(ExtrasOf(x, ifaces[i].name).routes, ifaces[i].extras.routes, k)
                  && forall j | i < j < |ifaces| :: !NamesRoute(ExtrasOf(x, ifaces[j].name), k, via))
            && (k in r ==> r[k] == via)
  {
    hide RoutesAfter, ExtrasAfter, NamesRoute, ListsRoute, Respelled, RouteList;
    var n := |ifaces| - 1;
    var init, last := ifaces[..n], ifaces[n];
    assert ifaces == init + [last];
    ExtrasAfterGives(x, init, last.name);
    var was := ExtrasOf(ExtrasAfter(x, init), last.name);
    assert was == ExtrasOf(x, last.name);
    if i == n {
      ListedVisit(ExtrasRoutes(routes, x, init), was, last.extras, k);
    } else {
      assert forall j | 0 <= j < n :: init[j] == ifaces[j];
      VisitsPlaceIff(routes, x, init, k, i);
      UnlistedVisit(ExtrasRoutes(routes, x, init), was, last.extras, k);
    }
  }

  lemma ListedVisit(routes: Routes, before: Extras, after: Extras, k: RouteKey)
    requires ListsRoute(after, k)
    ensures var r := RoutesAfter(routes, before.routes, after.routes);
            && (k in r <==> !Respelled(before.routes, after.routes, k))
            && (k in r ==> r[k] == LastVia(RouteList(after.routes), k).value)
  {
    hide RouteList, RoutesAfter, Respelled;
    WantedRouteOutcome(routes, before.routes, after.routes, k);
  }

  /** Some desired interface had sent the destination this way when it was visited last. */
  ghost predicate RouteDropped(x: ExtrasMap, ifaces: seq<Interface>, k: RouteKey, via: Argv) {
    exists iface :: iface in ifaces && NamesRoute(ExtrasOf(x, iface.name), k, via)
  }

  lemma UnlistedVisit(routes: Routes, before: Extras, after: Extras, k: RouteKey)
    requires !ListsRoute(after, k)
    ensures var r := RoutesAfter(routes, before.routes, after.routes);
            && (k in r <==> k in routes && !NamesRoute(before, k, routes[k]))
            && (k in r ==> r[k] == routes[k])
  {
    hide RouteList, KeyFor, ViaFor, RoutesAfter;
    UnwantedRouteOutcome(routes, before.routes, after.routes, k);
  }

  /** A destination nobody lists any more loses its route exactly when some visited interface had listed
      it that way. */
  lemma {:induction false} UnlistedVisits(routes: Routes, x: ExtrasMap, ifaces: seq<Interface>, k: RouteKey)
    requires DistinctNames(ifaces) && !RouteListed(ifaces, k)
    ensures var r := ExtrasRoutes(routes, x, ifaces);
            && (k in r <==> k in routes && !RouteDropped(x, ifaces, k, routes[k]))
            && (k in r ==> r[k] == routes[k])
  {
    hide RoutesAfter, ExtrasAfter, NamesRoute, ListsRoute;
    if ifaces != [] {
      var init, last := ifaces[..|ifaces| - 1], ifaces[|ifaces| - 1];
      assert ifaces == init + [last];
      assert last in ifaces;
      UnlistedVisits(routes, x, init, k);
      ExtrasAfterGives(x, init, last.name);
      UnlistedVisit(ExtrasRoutes(routes, x, init), ExtrasOf(ExtrasAfter(x, init), last.name), last.extras, k);
      if k in routes {
        assert RouteDropped(x, ifaces, k, routes[k]) <==>
          RouteDropped(x, init, k, routes[k]) || NamesRoute(ExtrasOf(x, last.name), k, routes[k]);
      }
    }
  }

  // ---- one sync ---------------------------------------------------------------------------------

  lemma NobodyDrops(x: ExtrasMap, ifaces: seq<Interface>, k: RouteKey, via: Argv)
    requires NobodyLists(x, k)
    ensures !RouteDropped(x, ifaces, k, via)
  {
    hide NamesRoute, ListsRoute;
    forall n ensures !NamesRoute(ExtrasOf(x, n), k, via) { ListsIffNames(ExtrasOf(x, n), k); }
  }

  /** A destination the newest configuration does not list, seen by a whole sync: its route is as before,
      or gone exactly when some desired interface had listed it that way. */
  lemma UnlistedRouteOutcome(src: LinkView, m: Memory, e: Event, w: Overlay.Wires, w': Overlay.Wires, k: RouteKey)
    requires e.Sync? && DistinctNames(e.ifaces) && OverlayRuns.WireStep(src, m, e, w, w')
    requires Clear(m.vxlan, w.routes, k) && Clear(e.links, w.routes, k) && !RouteListed(e.ifaces, k)
    ensures k in w'.routes <==> k in w.routes && !RouteDropped(m.extras, e.ifaces, k, w.routes[k])
    ensures k in w'.routes ==> w'.routes[k] == w.routes[k]
  {
    hide Overlay.Reconciled, ExtrasRoutes, LinkLists, Through, RouteListed, RouteDropped, DistinctNames;
    var first := Overlay.Reconciled(w, src, m.vxlan, e.links);
    PassLeaves(w, src, m.vxlan, e.links, k);
    UnlistedVisits(first.routes, m.extras, e.ifaces, k);
    PassLeaves(Overlay.Wires(first.links, ExtrasRoutes(first.routes, m.extras, e.ifaces)), src, m.vxlan, e.links, k);
  }

  /** A custom route: it names no device. */
  ghost predicate Deviceless(via: Argv) {
    forall dev :: !UsesDevice(via, dev)
  }

  lemma ClaimedIsDeviceless(x: ExtrasMap, k: RouteKey, via: Argv)
    requires RouteClaimed(x, k, via)
    ensures Deviceless(via)
  {
    hide NamesRoute, UsesDevice;
    var n :| NamesRoute(ExtrasOf(x, n), k, via);
    NamesNoDevice(ExtrasOf(x, n), k, via);
  }

  lemma DevicelessIsClear(cfgs: seq<LinkConfig>, routes: Routes, k: RouteKey)
    requires !LinkLists(cfgs, k) && (k in routes ==> Deviceless(routes[k]))
    ensures Clear(cfgs, routes, k)
  {
    hide LinkLists, UsesDevice;
  }

  /** After a sync every custom route on the host is claimed, or was there before and not claimed then either. */
  lemma ClaimedSync(src: LinkView, m: Memory, e: Event, w: Overlay.Wires, w': Overlay.Wires, k: RouteKey)
    requires e.Sync? && OverlayRuns.WireStep(src, m, e, w, w') && !LinkLists(m.vxlan, k) && !LinkLists(e.links, k)
    requires k in w.routes ==> Deviceless(w.routes[k])
    ensures k in w'.routes ==>
              && Deviceless(w'.routes[k])
              && (|| RouteClaimed(Remember(m, e).extras, k, w'.routes[k])
                  || (k in w.routes && w'.routes[k] == w.routes[k] && !RouteClaimed(m.extras, k, w.routes[k])))
  {
    hide Overlay.Reconciled, ExtrasRoutes, LinkLists, Through, RouteClaimed, ExtrasAfter, ByName, Deviceless;
    var first := Overlay.Reconciled(w, src, m.vxlan, e.links);
    DevicelessIsClear(m.vxlan, w.routes, k);
    DevicelessIsClear(e.links, w.routes, k);
    PassLeaves(w, src, m.vxlan, e.links, k);
    VisitsClaim(first.routes, m.extras, e.ifaces, k);
    var custom := ExtrasRoutes(first.routes, m.extras, e.ifaces);
    if k in custom && RouteClaimed(ExtrasAfter(m.extras, e.ifaces), k, custom[k]) {
      ClaimedIsDeviceless(ExtrasAfter(m.extras, e.ifaces), k, custom[k]);
    }
    DevicelessIsClear(m.vxlan, custom, k);
    DevicelessIsClear(e.links, custom, k);
    PassLeaves(Overlay.Wires(first.links, custom), src, m.vxlan, e.links, k);
  }

  /** What the second overlay pass of a sync, if there is one, says about a destination. */
  function LinkSays(e: Event, k: RouteKey): Option<Argv>
    requires e.Sync?
  {
    if e.driver.Succeeds() then OverlayConvergence.ListedVia(Overlay.Named(e.links), k) else None
  }

  /** What one sync, failed or not, leaves of a custom route it asks for: the way out of the last interface that
      lists the destination. The route is missing exactly when that interface only respelled it, or a later
      one just dropped it, or the sync succeeded and its second overlay pass still takes the route for one
      that a surviving link just dropped. When an applicable link lists the destination too, the second pass
      gives it the way of the link. */
  lemma CustomRoutePlacedIff(src: LinkView, m: Memory, e: Event, w: Overlay.Wires, w': Overlay.Wires, k: RouteKey,
                             i: nat)
    requires e.Sync? && DistinctNames(e.ifaces) && OverlayRuns.WireStep(src, m, e, w, w')
    requires e.driver.Succeeds() ==> OverlayConvergence.DistinctLinks(e.links)
    requires i < |e.ifaces| && ListsRoute(e.ifaces[i].extras, k)
    requires forall j | i < j < |e.ifaces| :: !ListsRoute(e.ifaces[j].extras, k)
    ensures var via := LastVia(RouteList(e.ifaces[i].extras.routes), k).value;
            match LinkSays(e, k)
            case Some(way) =>
              && (k in w'.routes <==> !OverlayConvergence.LostLater(Overlay.Reconciled(w, src, m.vxlan, e.links).links,
                                                                   Overlay.Named(e.links), k))
              && (k in w'.routes ==> w'.routes[k] == way)
            case None =>
              && (k in w'.routes <==>
                    && !Respelled(ExtrasOf(m.extras, e.ifaces[i].name).routes, e.ifaces[i].extras.routes, k)
                    && (forall j | i < j < |e.ifaces| :: !NamesRoute(ExtrasOf(m.extras, e.ifaces[j].name), k, via))
                    && !(e.driver.Succeeds()
                         && OverlayConvergence.NamedBy(Overlay.StaleList(m.vxlan, e.links), k, via)))
              && (k in w'.routes ==> w'.routes[k] == via)
  {
    hide Overlay.Reconciled, ExtrasRoutes, NamesRoute, Respelled, Deviceless, DistinctNames, RouteList, LastVia,
         OverlayConvergence.DistinctLinks, OverlayConvergence.ListedVia, OverlayConvergence.LostLater,
         OverlayConvergence.NamedBy, OverlayConvergence.Swept;
    var first := Overlay.Reconciled(w, src, m.vxlan, e.links);
    var custom := Overlay.Wires(first.links, ExtrasRoutes(first.routes, m.extras, e.ifaces));
    VisitsPlaceIff(first.routes, m.extras, e.ifaces, k, i);
    if e.driver.Succeeds() {
      OverlayConvergence.RoutesConverge(custom, src, m.vxlan, e.links, k);
      ListedIsDeviceless(e.ifaces[i].extras, k);
      if k in custom.routes { DevicelessIsSwept(custom, m.vxlan, e.links, k); }
    }
  }

  /** A route without a device is swept by name only. */
  lemma DevicelessIsSwept(w: Overlay.Wires, prev: seq<LinkConfig>, next: seq<LinkConfig>, k: RouteKey)
    requires k in w.routes && Deviceless(w.routes[k])
    ensures OverlayConvergence.Swept(w, prev, next, k)
            <==> OverlayConvergence.NamedBy(Overlay.StaleList(prev, next), k, w.routes[k])
  {
    hide UsesDevice, OverlayConvergence.NamedBy, Overlay.Applicable, Overlay.Rebuilt, Overlay.Named, Overlay.RemoveList;
  }

  /** One edit that moves a route from a surviving overlay link to the custom routes of an interface: the custom
      pass installs it, the second overlay pass deletes it, and a fully successful sync ends without it. */
  lemma MovedRouteIsLost(src: LinkView, m: Memory, e: Event, w: Overlay.Wires, w': Overlay.Wires, i: nat,
                         c: LinkConfig, d: LinkConfig, spec: string)
    requires e.Sync? && e.driver.Succeeds() && DistinctNames(e.ifaces) && OverlayRuns.WireStep(src, m, e, w, w')
    requires OverlayConvergence.DistinctLinks(e.links)
    requires c in m.vxlan && d in e.links && c.name == d.name != "" && spec in c.routes && spec !in d.routes
    requires i < |e.ifaces|
    requires var f, x := Text.Fields(spec), e.ifaces[i].extras;
             && LastVia(RouteList(x.routes), RouteKeyOf(f)) == Some(RouteVia(f))
             && LinkSays(e, RouteKeyOf(f)).None?
    requires forall j | i < j < |e.ifaces| :: !ListsRoute(e.ifaces[j].extras, RouteKeyOf(Text.Fields(spec)))
    ensures RouteKeyOf(Text.Fields(spec)) !in w'.routes
  {
    hide OverlayRuns.WireStep, Overlay.Reconciled, Overlay.StaleList, RouteList, LastVia, NamesRoute, Respelled,
         DistinctNames, OverlayConvergence.DistinctLinks, LinkSays, Text.Fields, RouteKeyOf, RouteVia,
         OverlayConvergence.LostLater;
    var stale := Overlay.StaleList(m.vxlan, e.links);
    OverlayConvergence.DroppedSpecIsStale(m.vxlan, e.links, c, d, spec);
    var j :| 0 <= j < |stale| && stale[j] == spec;
    assert OverlayConvergence.NamedBy(stale, RouteKeyOf(Text.Fields(spec)), RouteVia(Text.Fields(spec)));
    CustomRoutePlacedIff(src, m, e, w, w', RouteKeyOf(Text.Fields(spec)), i);
  }

  lemma ListedIsDeviceless(x: Extras, k: RouteKey)
    requires ListsRoute(x, k)
    ensures Deviceless(LastVia(RouteList(x.routes), k).value)
  {
    hide UsesDevice, RouteList, NamesRoute;
    ListsIffNames(x, k);
    NamesNoDevice(x, k, LastVia(RouteList(x.routes), k).value);
  }

  // ---- every run --------------------------------------------------------------------------------

  ghost predicate RouteEverListed(run: seq<Event>, k: RouteKey) {
    exists i :: 0 <= i < |run| && run[i].Sync? && RouteListed(run[i].ifaces, k)
  }

  /** No overlay link of the run has anything to do with the destination. */
  ghost predicate Apart(run: seq<Event>, base: Routes, k: RouteKey) {
    forall i | 0 <= i < |run| && run[i].Sync? :: Clear(run[i].links, base, k)
  }

  /** Some watched interface sends the destination this way. */
  ghost predicate WatchNames(ifaces: seq<Interface>, k: RouteKey, via: Argv) {
    exists iface :: iface in ifaces && NamesRoute(iface.extras, k, via)
  }

  /** Tick i may put back a route that the memory of custom entries does not account for: the recorded state is
      older than that memory after a failed sync. */
  ghost predicate RouteStraysAt(run: seq<Event>, k: RouteKey, via: Argv, i: int) {
    && 0 <= i < |run| && run[i].Tick? && WatchNames(MemoryAfter(run[..i]).desired, k, via)
    && !RouteClaimed(MemoryAfter(run[..i]).extras, k, via)
  }

  ghost predicate RouteStray(run: seq<Event>, k: RouteKey, via: Argv) {
    exists i :: RouteStraysAt(run, k, via, i)
  }

  lemma RouteStrayPush(run: seq<Event>, k: RouteKey, via: Argv)
    requires run != []
    ensures var n := |run| - 1;
            RouteStray(run, k, via) <==> RouteStray(run[..n], k, via) || RouteStraysAt(run, k, via, n)
  {
    hide WatchNames, RouteClaimed, MemoryAfter;
    var n := |run| - 1;
    forall i | 0 <= i < n ensures RouteStraysAt(run[..n], k, via, i) <==> RouteStraysAt(run, k, via, i) {
      assert run[..n][..i] == run[..i];
    }
  }

  /** The destination is as the host had it, and nobody remembers or watches a route for it; or the host had
      none, and what is there some remembered interface lists, except for strays. */
  ghost predicate RouteHeld(run: seq<Event>, base: Routes, routes: Routes, k: RouteKey) {
    var m := MemoryAfter(run);
    || (SameAt(routes, base, k) && NobodyLists(m.extras, k) && !RouteListed(m.desired, k))
    || (k !in base && (k in routes ==>
          Deviceless(routes[k]) && (RouteStray(run, k, routes[k]) || RouteClaimed(m.extras, k, routes[k]))))
  }

  lemma StillNobody(m: Memory, e: Event, k: RouteKey)
    requires e.Sync? && DistinctNames(e.ifaces) && NobodyLists(m.extras, k) && !RouteListed(e.ifaces, k)
    ensures NobodyLists(Remember(m, e).extras, k)
  {
    hide ListsRoute, ExtrasAfter, ByName;
    forall n ensures !ListsRoute(ExtrasOf(ExtrasAfter(m.extras, e.ifaces), n), k) {
      ExtrasAfterGives(m.extras, e.ifaces, n);
      if iface :| iface in e.ifaces && iface.name == n { }
    }
  }

  lemma HeldSync(src: LinkView, run: seq<Event>, e: Event, base: Routes, w: Overlay.Wires, w': Overlay.Wires,
                 k: RouteKey)
    requires e.Sync? && DistinctNames(e.ifaces) && OverlayRuns.WireStep(src, MemoryAfter(run), e, w, w')
    requires RouteHeld(run, base, w.routes, k)
    requires Clear(MemoryAfter(run).vxlan, base, k) && Clear(e.links, base, k)
    requires RouteListed(e.ifaces, k) ==> k !in base
    ensures RouteHeld(run + [e], base, w'.routes, k)
  {
    hide OverlayRuns.WireStep, LinkLists, Through, RouteListed, RouteClaimed, NobodyLists, Remember, DistinctNames,
         RouteDropped, MemoryAfter,
         Deviceless, RouteStray;
    var m := MemoryAfter(run);
    OverlayRuns.MemoryPush(run, e);
    assert (run + [e])[..|run|] == run;
    forall via { RouteStrayPush(run + [e], k, via); }
    if SameAt(w.routes, base, k) && NobodyLists(m.extras, k) && !RouteListed(m.desired, k)
        && !RouteListed(e.ifaces, k) {
      UnlistedRouteOutcome(src, m, e, w, w', k);
      if k in w.routes { NobodyDrops(m.extras, e.ifaces, k, w.routes[k]); }
      StillNobody(m, e, k);
      RuleTheorems.DesiredOf(m, e);
    } else {
      ClaimedSync(src, m, e, w, w', k);
    }
  }

  lemma TickFromWatched(src: LinkView, m: Memory, e: Event, w: Overlay.Wires, w': Overlay.Wires, k: RouteKey)
    requires e.Tick? && OverlayRuns.WireStep(src, m, e, w, w')
    ensures SameAt(w'.routes, w.routes, k) || (k in w'.routes && WatchNames(m.desired, k, w'.routes[k]))
  {
    hide RestoreRoutes, CustomRoutes, KeyFor, ViaFor, RouteList;
    RestoredFromList(w.routes, CustomRoutes(m.desired), e.probe, k);
    if a :| a in CustomRoutes(m.desired) && KeyFor(a) == k && k in w'.routes && ViaFor(a) == w'.routes[k] {
      CustomRoutesMembers(m.desired, a);
      var iface :| iface in m.desired && a in RouteList(iface.extras.routes);
      assert NamesRoute(iface.extras, k, w'.routes[k]);
    }
  }

  lemma WatchFacts(ifaces: seq<Interface>, k: RouteKey, via: Argv)
    requires WatchNames(ifaces, k, via)
    ensures RouteListed(ifaces, k) && Deviceless(via)
  {
    hide NamesRoute, UsesDevice, ListsRoute;
    var iface :| iface in ifaces && NamesRoute(iface.extras, k, via);
    ListsIffNames(iface.extras, k);
    NamesNoDevice(iface.extras, k, via);
  }

  lemma HeldTick(src: LinkView, run: seq<Event>, e: Event, base: Routes, w: Overlay.Wires, w': Overlay.Wires,
                 k: RouteKey)
    requires e.Tick? && OverlayRuns.WireStep(src, MemoryAfter(run), e, w, w') && RouteHeld(run, base, w.routes, k)
    ensures RouteHeld(run + [e], base, w'.routes, k)
  {
    hide OverlayRuns.WireStep, RouteListed, RouteClaimed, NobodyLists, Remember, MemoryAfter, Deviceless, RouteStray,
         WatchNames;
    var m := MemoryAfter(run);
    OverlayRuns.MemoryPush(run, e);
    TickRemembers(m, e);
    assert (run + [e])[..|run|] == run && (run + [e])[|run|] == e;
    TickFromWatched(src, m, e, w, w', k);
    forall via { RouteStrayPush(run + [e], k, via); }
    if k in w'.routes && WatchNames(m.desired, k, w'.routes[k]) { WatchFacts(m.desired, k, w'.routes[k]); }
  }

  lemma {:induction false} RememberedApart(run: seq<Event>, base: Routes, k: RouteKey)
    requires Apart(run, base, k)
    ensures Clear(MemoryAfter(run).vxlan, base, k)
  {
    hide LinkLists, Through, ExtrasAfter, ByName;
    if run == [] {
      NoLinks(base, k);
    } else {
      var init, last := run[..|run| - 1], run[|run| - 1];
      assert forall i | 0 <= i < |init| :: init[i] == run[i];
      if last.Tick? { RememberedApart(init, base, k); }
    }
  }

  lemma NoLinks(base: Routes, k: RouteKey)
    ensures Clear([], base, k)
  {
  }

  /** Whatever configurations a run went through, under whatever engine and with whatever failures, the memory of
      custom entries accounts for the route of a destination: it is the host's own, or one some remembered
      interface lists, except for strays. */
  lemma {:induction false} RunHoldsRoutes(src: LinkView, run: seq<Event>, ws: seq<Overlay.Wires>, k: RouteKey)
    requires OverlayRuns.WireRun(src, run, ws) && ProperRun(run) && Apart(run, ws[0].routes, k)
    requires RouteEverListed(run, k) ==> k !in ws[0].routes
    ensures RouteHeld(run, ws[0].routes, ws[|run|].routes, k)
  {
    hide OverlayRuns.WireStep, Clear, RouteListed, RouteHeld, MemoryAfter, ProperRun, Proper;
    if run == [] {
      HeldAtStart(ws[0].routes, k);
    } else {
      var n := |run| - 1;
      var init, last := run[..n], run[n];
      assert run == init + [last];
      OverlayRuns.WireRunPrefix(src, run, ws);
      ProperPrefix(run);
      assert forall i | 0 <= i < n :: init[i] == run[i];
      RunHoldsRoutes(src, init, ws[..n + 1], k);
      var m := MemoryAfter(init);
      if last.Sync? {
        RememberedApart(init, ws[0].routes, k);
        DistinctOf(m, last);
        HeldSync(src, init, last, ws[0].routes, ws[n], ws[n + 1], k);
      } else {
        HeldTick(src, init, last, ws[0].routes, ws[n], ws[n + 1], k);
      }
    }
  }

  lemma HeldAtStart(base: Routes, k: RouteKey)
    ensures RouteHeld([], base, base, k)
  {
    EmptyLists();
  }

  /** Under the kernel engine no route strays. */
  lemma KernelRunsTrackRoutes(run: seq<Event>, k: RouteKey, via: Argv)
    requires ProperRun(run) && AllKernel(run)
    ensures !RouteStray(run, k, via)
  {
    hide NamesRoute, MemoryAfter, ProperRun, Watched, RouteClaimed, WatchNames;
    forall i | 0 <= i < |run| ensures !RouteStraysAt(run, k, via, i) {
      ProperTake(run, i);
      KernelRunsWatch(run[..i]);
      if WatchNames(MemoryAfter(run[..i]).desired, k, via) { WatchedRouteIsClaimed(MemoryAfter(run[..i]), k, via); }
    }
  }

  lemma WatchedRouteIsClaimed(m: Memory, k: RouteKey, via: Argv)
    requires Watched(m) && WatchNames(m.desired, k, via)
    ensures RouteClaimed(m.extras, k, via)
  {
    hide NamesRoute;
    var iface :| iface in m.desired && NamesRoute(iface.extras, k, via);
    assert NamesRoute(ExtrasOf(m.extras, iface.name), k, via);
  }

  // ---- every route, also those of links ---------------------------------------------------------

  /** The link lists a route that sends the destination this way. */
  ghost predicate Sends(c: LinkConfig, k: RouteKey, via: Argv) {
    c.name != "" && exists spec :: spec in c.routes && RouteKeyOf(Text.Fields(spec)) == k
                                   && RouteVia(Text.Fields(spec)) == via
  }

  ghost predicate LinkClaims(cfgs: seq<LinkConfig>, k: RouteKey, via: Argv) {
    exists c :: c in cfgs && Sends(c, k, via)
  }

  /** A link that goes does not take the route along: the route does not use its device. */
  ghost predicate Orphans(cfgs: seq<LinkConfig>, next: seq<LinkConfig>, links: Overlay.Links, k: RouteKey, via: Argv) {
    exists c :: c in cfgs && Sends(c, k, via) && !Overlay.Names(next, c.name)
                && !(UsesDevice(via, c.name) && c.name in links)
  }

  /** The pass is made with an old configuration that lists the route: the route is gone, unless a link of the
      new configuration lists it too or its lister went without taking it along. */
  lemma PassAccounts(w: Overlay.Wires, src: LinkView, prev: seq<LinkConfig>, next: seq<LinkConfig>, k: RouteKey,
                     via: Argv)
    requires OverlayConvergence.DistinctLinks(next)
    requires RouteAt(Overlay.Reconciled(w, src, prev, next).routes, k) == Some(via)
    ensures || LinkClaims(next, k, via)
            || (&& RouteAt(w.routes, k) == Some(via)
                && (LinkClaims(prev, k, via) ==> Orphans(prev, next, w.links, k, via)))
  {
    hide Overlay.Reconciled, Overlay.StaleList, Overlay.RemoveList, Overlay.Named, Overlay.Names, Text.Fields,
         RouteKeyOf, RouteVia, UsesDevice, OverlayConvergence.DistinctLinks, OverlayConvergence.ListedVia,
         OverlayConvergence.LostLater, OverlayConvergence.Flushed;
    OverlayConvergence.RoutesConverge(w, src, prev, next, k);
    if OverlayConvergence.ListedVia(Overlay.Named(next), k).Some? {
      OverlayConvergence.NamedFacts(next);
      ListedIsClaimed(Overlay.Named(next), k);
    } else if LinkClaims(prev, k, via) && !LinkClaims(next, k, via) {
      var c :| c in prev && Sends(c, k, via);
      var spec :| spec in c.routes && RouteKeyOf(Text.Fields(spec)) == k && RouteVia(Text.Fields(spec)) == via;
      if Overlay.Names(next, c.name) {
        SurvivorDropsIt(prev, next, c, spec);
        assert false;
      }
      OverlayConvergence.NameListed(prev, c);
      OverlayConvergence.RemoveListMembers(prev, next, c.name);
      assert UsesDevice(via, c.name) && c.name in w.links ==>
          OverlayConvergence.Dropped(w.links, Overlay.RemoveList(prev, next), via);
      assert Orphans(prev, next, w.links, k, via);
    }
  }

  lemma SurvivorDropsIt(prev: seq<LinkConfig>, next: seq<LinkConfig>, c: LinkConfig, spec: string)
    requires OverlayConvergence.DistinctLinks(next) && c in prev && c.name != "" && Overlay.Names(next, c.name)
    requires spec in c.routes
    ensures var k, via := RouteKeyOf(Text.Fields(spec)), RouteVia(Text.Fields(spec));
            LinkClaims(next, k, via) || OverlayConvergence.NamedBy(Overlay.StaleList(prev, next), k, via)
  {
    hide Overlay.StaleList, Text.Fields, RouteKeyOf, RouteVia, OverlayConvergence.DistinctLinks;
    var i :| 0 <= i < |next| && next[i].name == c.name;
    var d := next[i];
    if spec in d.routes {
      assert Sends(d, RouteKeyOf(Text.Fields(spec)), RouteVia(Text.Fields(spec)));
    } else {
      OverlayConvergence.DroppedSpecIsStale(prev, next, c, d, spec);
    }
  }

  lemma {:induction false} ListedIsClaimed(cfgs: seq<LinkConfig>, k: RouteKey)
    requires OverlayConvergence.ListedVia(cfgs, k).Some? && forall c | c in cfgs :: c.name != ""
    ensures exists c :: c in cfgs && Sends(c, k, OverlayConvergence.ListedVia(cfgs, k).value)
  {
    hide OverlayConvergence.SpecVia, Overlay.Applicable, Sends;
    var init, last := cfgs[..|cfgs| - 1], cfgs[|cfgs| - 1];
    assert cfgs == init + [last];
    if Overlay.Applicable(last) && OverlayConvergence.SpecVia(last.routes, k).Some? {
      SpecSends(last.routes, k);
      LastSends(last, k);
    } else {
      ListedIsClaimed(init, k);
    }
  }

  lemma {:induction false} SpecSends(specs: seq<string>, k: RouteKey)
    requires OverlayConvergence.SpecVia(specs, k).Some?
    ensures exists spec :: spec in specs && RouteKeyOf(Text.Fields(spec)) == k
                           && RouteVia(Text.Fields(spec)) == OverlayConvergence.SpecVia(specs, k).value
  {
    hide Text.Fields, RouteKeyOf, RouteVia;
    var init, last := specs[..|specs| - 1], specs[|specs| - 1];
    assert specs == init + [last];
    if RouteKeyOf(Text.Fields(last)) != k { SpecSends(init, k); }
  }

  lemma LastSends(c: LinkConfig, k: RouteKey)
    requires c.name != "" && OverlayConvergence.SpecVia(c.routes, k).Some?
    ensures Sends(c, k, OverlayConvergence.SpecVia(c.routes, k).value)
  {
    hide Text.Fields, RouteKeyOf, RouteVia, OverlayConvergence.SpecVia;
    SpecSends(c.routes, k);
  }

  /** A sync leaves a route for a reason: some interface is remembered to list it, or some link lists it, or it
      was there before, no interface was remembered to list it, and a link that lists it was removed
      without taking it along if any did. */
  lemma SyncAccounts(src: LinkView, m: Memory, e: Event, w: Overlay.Wires, w': Overlay.Wires, k: RouteKey, via: Argv)
    requires e.Sync? && OverlayConvergence.DistinctLinks(e.links) && OverlayRuns.WireStep(src, m, e, w, w')
    requires RouteAt(w'.routes, k) == Some(via)
    ensures || RouteClaimed(Remember(m, e).extras, k, via)
            || LinkClaims(e.links, k, via)
            || (&& RouteAt(w.routes, k) == Some(via) && !RouteClaimed(m.extras, k, via)
                && (LinkClaims(m.vxlan, k, via) ==> Orphans(m.vxlan, e.links, w.links, k, via)))
  {
    hide Overlay.Reconciled, ExtrasRoutes, RouteClaimed, LinkClaims, Orphans, ExtrasAfter, ByName,
         OverlayConvergence.DistinctLinks;
    var first := Overlay.Reconciled(w, src, m.vxlan, e.links);
    var custom := Overlay.Wires(first.links, ExtrasRoutes(first.routes, m.extras, e.ifaces));
    if !LinkClaims(e.links, k, via) && !RouteClaimed(ExtrasAfter(m.extras, e.ifaces), k, via) {
      if e.driver.Succeeds() { PassAccounts(custom, src, m.vxlan, e.links, k, via); }
      VisitsClaim(first.routes, m.extras, e.ifaces, k);
      PassAccounts(w, src, m.vxlan, e.links, k, via);
    }
  }

  /** The route was there all the time. */
  ghost predicate AlwaysThere(ws: seq<Overlay.Wires>, k: RouteKey, via: Argv) {
    forall j | 0 <= j < |ws| :: RouteAt(ws[j].routes, k) == Some(via)
  }

  /** Sync i removed a link without the route it listed. */
  ghost predicate OrphansAt(run: seq<Event>, ws: seq<Overlay.Wires>, k: RouteKey, via: Argv, i: int) {
    && 0 <= i < |run| < |ws| && run[i].Sync?
    && Orphans(MemoryAfter(run[..i]).vxlan, run[i].links, ws[i].links, k, via)
  }

  ghost predicate Orphaned(run: seq<Event>, ws: seq<Overlay.Wires>, k: RouteKey, via: Argv) {
    exists i :: OrphansAt(run, ws, k, via, i)
  }

  lemma OrphanPush(run: seq<Event>, e: Event, ws: seq<Overlay.Wires>, k: RouteKey, via: Argv)
    requires |ws| == |run| + 2
    ensures Orphaned(run, ws[..|run| + 1], k, via) ==> Orphaned(run + [e], ws, k, via)
    ensures e.Sync? && Orphans(MemoryAfter(run).vxlan, e.links, ws[|run|].links, k, via) ==>
              Orphaned(run + [e], ws, k, via)
  {
    hide MemoryAfter, Orphans;
    var all, before := run + [e], ws[..|run| + 1];
    if i :| OrphansAt(run, before, k, via, i) {
      assert all[..i] == run[..i];
      assert OrphansAt(all, ws, k, via, i);
    }
    assert all[..|run|] == run;
    if e.Sync? && Orphans(MemoryAfter(run).vxlan, e.links, ws[|run|].links, k, via) {
      assert OrphansAt(all, ws, k, via, |run|);
    }
  }

  /** Every route on the host after any run, whatever interfaces and links list the destination, is accounted for:
      it is the host's own and was there all the time, or some remembered interface or link lists it, or it
      strayed, or its link was removed and did not take it along. So a route that a surviving link listed
      once is gone when nobody lists it any more. */
  lemma {:induction false} RunAccountsRoutes(src: LinkView, run: seq<Event>, ws: seq<Overlay.Wires>, k: RouteKey,
                                             via: Argv)
    requires OverlayRuns.WireRun(src, run, ws) && RouteAt(ws[|run|].routes, k) == Some(via)
    requires forall i | 0 <= i < |run| && run[i].Sync? :: OverlayConvergence.DistinctLinks(run[i].links)
    ensures var m := MemoryAfter(run);
            || AlwaysThere(ws, k, via)
            || RouteClaimed(m.extras, k, via)
            || LinkClaims(m.vxlan, k, via)
            || RouteStray(run, k, via)
            || Orphaned(run, ws, k, via)
  {
    hide OverlayRuns.WireStep, MemoryAfter, RouteClaimed, LinkClaims, RouteStray, Orphaned, Remember, RouteAt,
         OverlayConvergence.DistinctLinks;
    if run != [] {
      var n := |run| - 1;
      var init, last, before := run[..n], run[n], ws[..n + 1];
      assert run == init + [last];
      OverlayRuns.WireRunPrefix(src, run, ws);
      assert forall i | 0 <= i < n :: init[i] == run[i];
      AccountsStep(src, init, last, ws, k, via);
      if RouteAt(ws[n].routes, k) == Some(via) {
        RunAccountsRoutes(src, init, before, k, via);
      }
    }
  }

  lemma AccountsStep(src: LinkView, run: seq<Event>, e: Event, ws: seq<Overlay.Wires>, k: RouteKey, via: Argv)
    requires |ws| == |run| + 2 && OverlayRuns.WireStep(src, MemoryAfter(run), e, ws[|run|], ws[|run| + 1])
    requires RouteAt(ws[|run| + 1].routes, k) == Some(via)
    requires e.Sync? ==> OverlayConvergence.DistinctLinks(e.links)
    ensures var m, m' := MemoryAfter(run), MemoryAfter(run + [e]);
            || RouteClaimed(m'.extras, k, via) || LinkClaims(m'.vxlan, k, via)
            || RouteStray(run + [e], k, via) || Orphaned(run + [e], ws, k, via)
            || (&& RouteAt(ws[|run|].routes, k) == Some(via)
                && !RouteClaimed(m.extras, k, via) && !LinkClaims(m.vxlan, k, via))
    ensures RouteStray(run, k, via) ==> RouteStray(run + [e], k, via)
    ensures Orphaned(run, ws[..|run| + 1], k, via) ==> Orphaned(run + [e], ws, k, via)
  {
    hide OverlayRuns.WireStep, MemoryAfter, RouteClaimed, LinkClaims, RouteStray, Orphaned, Orphans, ExtrasAfter,
         ByName, OverlayConvergence.DistinctLinks, WatchNames;
    var m := MemoryAfter(run);
    assert (run + [e])[..|run|] == run && (run + [e])[|run|] == e;
    OverlayRuns.MemoryPush(run, e);
    RouteStrayPush(run + [e], k, via);
    OrphanPush(run, e, ws, k, via);
    if e.Sync? {
      SyncAccounts(src, m, e, ws[|run|], ws[|run| + 1], k, via);
    } else {
      TickFromWatched(src, m, e, ws[|run|], ws[|run| + 1], k);
    }
  }

  // ---- a sync and a tick ------------------------------------------------------------------------

  /** The state before the last event of a run, and the step that event made. */
  lemma LastStep(src: LinkView, run: seq<Event>, e: Event, ws: seq<Overlay.Wires>)
    requires OverlayRuns.WireRun(src, run + [e], ws)
    ensures |ws| == |run| + 2 && OverlayRuns.WireRun(src, run, ws[..|run| + 1])
    ensures OverlayRuns.WireStep(src, MemoryAfter(run), e, ws[|run|], ws[|run| + 1])
  {
    hide OverlayRuns.WireStep;
    assert (run + [e])[..|run|] == run;
    OverlayRuns.WireRunPrefix(src, run + [e], ws);
  }

  lemma SoundTick(src: LinkView, m: Memory, tick: Event, w: Overlay.Wires, w': Overlay.Wires, k: RouteKey)
    requires tick.Tick? && OverlayRuns.WireStep(src, m, tick, w, w') && RouteProbeSound(tick.probe)
    ensures RouteRestored(w.routes, w'.routes, CustomRoutes(m.desired), k)
  {
    hide RestoreRoutes, CustomRoutes, LastVia, RouteProbeSound;
    SoundlyRestored(w.routes, CustomRoutes(m.desired), tick.probe);
  }

  /** A watchdog tick, after any run: every destination some interface of the recorded state lists leaves the way
      its last line says, whatever the interfaces and the overlay links did to each other's routes before.
      The recorded state is the newest configuration after a successful sync and an older one after a failed
      sync. */
  lemma ListedRoutePlaced(src: LinkView, run: seq<Event>, tick: Event, ws: seq<Overlay.Wires>, k: RouteKey)
    requires OverlayRuns.WireRun(src, run + [tick], ws)
    requires tick.Tick? && RouteProbeSound(tick.probe) && RouteListed(MemoryAfter(run).desired, k)
    ensures var now := ws[|run| + 1].routes;
            k in now && Some(now[k]) == LastVia(CustomRoutes(MemoryAfter(run).desired), k)
  {
    hide OverlayRuns.WireStep, RouteListed, MemoryAfter, RouteProbeSound, CustomRoutes, LastVia;
    LastStep(src, run, tick, ws);
    SoundTick(src, MemoryAfter(run), tick, ws[|run|], ws[|run| + 1], k);
    ListedIffLast(MemoryAfter(run).desired, k);
  }

  lemma UnlistedTick(src: LinkView, m: Memory, e: Event, w: Overlay.Wires, w': Overlay.Wires, k: RouteKey)
    requires e.Tick? && OverlayRuns.WireStep(src, m, e, w, w') && !RouteListed(m.desired, k)
    ensures SameAt(w'.routes, w.routes, k)
  {
    hide OverlayRuns.WireStep, RouteListed, WatchNames;
    TickFromWatched(src, m, e, w, w', k);
    if k in w'.routes && WatchNames(m.desired, k, w'.routes[k]) { WatchFacts(m.desired, k, w'.routes[k]); }
  }

  /** A destination that neither the sync nor the recorded state lists has, after the sync and a tick, the route the
      host came with, exactly when it already had it before the sync or some desired interface had listed the
      route that was there. What fails is the rest: the custom route of an interface that vanished, or one
      that a tick brought back after a failed sync. */
  lemma UnlistedRouteExactIff(src: LinkView, run: seq<Event>, e: Event, tick: Event, ws: seq<Overlay.Wires>,
                              k: RouteKey)
    requires OverlayRuns.WireRun(src, run + [e] + [tick], ws)
    requires e.Sync? && tick.Tick? && ProperRun(run + [e])
    requires !RouteListed(e.ifaces, k) && !RouteListed(Remember(MemoryAfter(run), e).desired, k)
    requires Apart(run + [e], ws[0].routes, k)
    requires RouteEverListed(run + [e], k) ==> k !in ws[0].routes
    ensures var base, was, now := ws[0].routes, ws[|run|].routes, ws[|run| + 2].routes;
            SameAt(now, base, k) <==>
              SameAt(was, base, k) || (k in was && RouteDropped(MemoryAfter(run).extras, e.ifaces, k, was[k]))
  {
    hide OverlayRuns.WireStep, LinkLists, Through, RouteListed, MemoryAfter, ProperRun, Remember, RouteClaimed,
         NobodyLists, RouteDropped,
         RouteEverListed, Apart, RouteStray, Deviceless;
    var m, base := MemoryAfter(run), ws[0].routes;
    LastStep(src, run + [e], tick, ws);
    LastStep(src, run, e, ws[..|run| + 2]);
    assert ws[..|run| + 2][..|run| + 1] == ws[..|run| + 1];
    OverlayRuns.MemoryPush(run, e);
    UnlistedTick(src, MemoryAfter(run + [e]), tick, ws[|run| + 1], ws[|run| + 2], k);
    PrefixFacts(run, e, base, k);
    RunHoldsRoutes(src, run, ws[..|run| + 1], k);
    RememberedApart(run, base, k);
    HeldIsClear(run, base, ws[|run|].routes, k, m.vxlan);
    HeldIsClear(run, base, ws[|run|].routes, k, e.links);
    UnlistedRouteOutcome(src, m, e, ws[|run|], ws[|run| + 1], k);
    if k in ws[|run|].routes && NobodyLists(m.extras, k) { NobodyDrops(m.extras, e.ifaces, k, ws[|run|].routes[k]); }
  }

  lemma PrefixFacts(run: seq<Event>, e: Event, base: Routes, k: RouteKey)
    requires e.Sync? && ProperRun(run + [e]) && Apart(run + [e], base, k)
    ensures ProperRun(run) && Apart(run, base, k) && Clear(e.links, base, k) && DistinctNames(e.ifaces)
    ensures RouteEverListed(run, k) ==> RouteEverListed(run + [e], k)
  {
    hide Clear, RouteListed, ProperRun, MemoryAfter;
    assert (run + [e])[..|run|] == run && (run + [e])[|run|] == e;
    ProperPrefix(run + [e]);
    assert forall i | 0 <= i < |run| :: (run + [e])[i] == run[i];
  }

  lemma HeldIsClear(run: seq<Event>, base: Routes, routes: Routes, k: RouteKey, cfgs: seq<LinkConfig>)
    requires RouteHeld(run, base, routes, k) && Clear(cfgs, base, k)
    ensures Clear(cfgs, routes, k)
  {
    hide LinkLists, Through, RouteClaimed, NobodyLists, RouteStray, Deviceless, RouteListed, MemoryAfter;
    if k in routes && Deviceless(routes[k]) { DevicelessIsClear(cfgs, routes, k); }
  }

  /** No interface outside the configuration still has a route for the destination in the memory of custom
      entries. */
  ghost predicate NoLeftoverRoute(m: Memory, ifaces: seq<Interface>, k: RouteKey) {
    forall n | n !in ByName(ifaces) :: !ListsRoute(ExtrasOf(m.extras, n), k)
  }

  /** In particular it has, when nothing strayed and no vanished interface left a route for it. */
  lemma UnlistedRouteExact(src: LinkView, run: seq<Event>, e: Event, tick: Event, ws: seq<Overlay.Wires>, k: RouteKey)
    requires OverlayRuns.WireRun(src, run + [e] + [tick], ws)
    requires e.Sync? && tick.Tick? && ProperRun(run + [e])
    requires !RouteListed(e.ifaces, k) && !RouteListed(Remember(MemoryAfter(run), e).desired, k)
    requires Apart(run + [e], ws[0].routes, k)
    requires RouteEverListed(run + [e], k) ==> k !in ws[0].routes
    requires NoLeftoverRoute(MemoryAfter(run), e.ifaces, k) && forall via :: !RouteStray(run, k, via)
    ensures SameAt(ws[|run| + 2].routes, ws[0].routes, k)
  {
    hide OverlayRuns.WireStep, MemoryAfter, ProperRun, RouteListed, Remember, Deviceless, RouteStray,
         RouteDropped, RouteEverListed, Apart, NoLeftoverRoute, NobodyLists, RouteClaimed;
    var m, was := MemoryAfter(run), ws[|run|].routes;
    LastStep(src, run + [e], tick, ws);
    LastStep(src, run, e, ws[..|run| + 2]);
    UnlistedRouteExactIff(src, run, e, tick, ws, k);
    PrefixFacts(run, e, ws[0].routes, k);
    assert ws[..|run| + 2][..|run| + 1] == ws[..|run| + 1];
    RunHoldsRoutes(src, run, ws[..|run| + 1], k);
    if k in was && RouteClaimed(m.extras, k, was[k]) { ClaimedIsDropped(m, e.ifaces, k, was[k]); }
  }

  lemma ClaimedIsDropped(m: Memory, ifaces: seq<Interface>, k: RouteKey, via: Argv)
    requires RouteClaimed(m.extras, k, via) && NoLeftoverRoute(m, ifaces, k)
    ensures RouteDropped(m.extras, ifaces, k, via)
  {
    hide NamesRoute, ListsRoute;
    var n :| NamesRoute(ExtrasOf(m.extras, n), k, via);
    ListsIffNames(ExtrasOf(m.extras, n), k);
    assert n in ByName(ifaces);
    var iface := ByName(ifaces)[n];
    assert iface in ifaces && iface.name == n;
  }

  // ---- what a tick does -------------------------------------------------------------------------

  /** After a tick whose test claims nothing that is gone, every custom line of every desired interface is in
      place, exactly when no two lines send one destination different ways. Then the next tick changes no
      route, whatever its test claims. */
  lemma TickRestoresIff(routes: Routes, ifaces: seq<Interface>, probe: RouteProbe, later: RouteProbe)
    requires RouteProbeSound(probe)
    ensures var r := TickRoutes(routes, ifaces, probe);
            && ((forall a | a in CustomRoutes(ifaces) :: Holds(r, a)) <==> Agree(CustomRoutes(ifaces)))
            && (Agree(CustomRoutes(ifaces)) ==> TickRoutes(r, ifaces, later) == r)
  {
    hide RouteProbeSound, RestoreRoutes, CustomRoutes, Agree, Holds;
    AllHoldIff(routes, CustomRoutes(ifaces), probe);
    if Agree(CustomRoutes(ifaces)) {
      NothingMissing(TickRoutes(routes, ifaces, probe), CustomRoutes(ifaces), later);
    }
  }

  /** A tick overwrites no present route exactly when none leaves another way than some line says and no two
      lines disagree; so after one tick the next ones are quiet exactly when no two lines disagree. */
  lemma QuietTickIff(routes: Routes, ifaces: seq<Interface>, probe: RouteProbe)
    requires RouteProbeSound(probe)
    ensures TickOverwrites(routes, ifaces, probe) == 0 <==>
              NoClash(routes, CustomRoutes(ifaces))
              && Agree(CustomRoutes(ifaces))
    ensures TickOverwrites(TickRoutes(routes, ifaces, probe), ifaces, probe) == 0 <==> Agree(CustomRoutes(ifaces))
  {
    hide RouteProbeSound, RestoreRoutes, RestoreOverwrites, CustomRoutes, Agree, KeyFor, ViaFor;
    var r := TickRoutes(routes, ifaces, probe);
    RestoreOverwritesIff(routes, CustomRoutes(ifaces), probe);
    RestoreOverwritesIff(r, CustomRoutes(ifaces), probe);
    AllHoldIff(routes, CustomRoutes(ifaces), probe);
  }

  // ---- routes nobody lists any more -------------------------------------------------------------

  ghost predicate RouteDropsAt(run: seq<Event>, more: seq<Event>, k: RouteKey, via: Argv, i: int) {
    0 <= i < |more| && more[i].Sync? && RouteDropped(MemoryAfter(run + more[..i]).extras, more[i].ifaces, k, via)
  }

  /** Tick i finds the destination in the recorded state. */
  ghost predicate TickLists(run: seq<Event>, more: seq<Event>, k: RouteKey, i: int) {
    0 <= i < |more| && more[i].Tick? && RouteListed(MemoryAfter(run + more[..i]).desired, k)
  }

  /** From step i on nothing touches the route any more. */
  ghost predicate QuietFrom(run: seq<Event>, more: seq<Event>, k: RouteKey, via: Argv, i: int) {
    forall j | i <= j < |more| :: !RouteDropsAt(run, more, k, via, j) && !TickLists(run, more, k, j)
  }

  ghost predicate RouteRestoredLast(run: seq<Event>, more: seq<Event>, k: RouteKey, via: Argv, i: int) {
    && TickLists(run, more, k, i) && LastVia(CustomRoutes(MemoryAfter(run + more[..i]).desired), k) == Some(via)
    && QuietFrom(run, more, k, via, i + 1)
  }

  /** The last tick that lists the destination sends it this way and no later sync drops that route; or no tick
      lists it, and it left this way before and no sync drops that. */
  ghost predicate RouteLasts(run: seq<Event>, more: seq<Event>, k: RouteKey, via: Argv, was: Option<Argv>) {
    || (exists i :: RouteRestoredLast(run, more, k, via, i))
    || (was == Some(via) && QuietFrom(run, more, k, via, 0))
  }

  lemma RouteLastsPush(run: seq<Event>, more: seq<Event>, k: RouteKey, via: Argv, was: Option<Argv>)
    requires more != []
    ensures var n := |more| - 1;
            RouteLasts(run, more, k, via, was) <==>
              if TickLists(run, more, k, n) then LastVia(CustomRoutes(MemoryAfter(run + more[..n]).desired), k)
                  == Some(via)
              else !RouteDropsAt(run, more, k, via, n) && RouteLasts(run, more[..n], k, via, was)
  {
    hide RouteDropped, MemoryAfter, RouteListed, CustomRoutes, LastVia;
    var n := |more| - 1;
    var init := more[..n];
    forall i | 0 <= i < n ensures init[..i] == more[..i] && init[i] == more[i] { }
    assert forall i | 0 <= i < n :: RouteDropsAt(run, init, k, via, i) <==> RouteDropsAt(run, more, k, via, i);
    assert forall i | 0 <= i < n :: TickLists(run, init, k, i) <==> TickLists(run, more, k, i);
    if TickLists(run, more, k, n) {
      if LastVia(CustomRoutes(MemoryAfter(run + more[..n]).desired), k)
          == Some(via) { assert RouteRestoredLast(run, more, k, via, n); }
      if i :| RouteRestoredLast(run, more, k, via, i) { assert i >= n; }
    } else {
      if i :| RouteRestoredLast(run, more, k, via, i) { assert RouteRestoredLast(run, init, k, via, i); }
      if !RouteDropsAt(run, more, k, via, n) {
        if i :| RouteRestoredLast(run, init, k, via, i) { assert RouteRestoredLast(run, more, k, via, i); }
      }
    }
  }

  lemma NoRouteDropped(run: seq<Event>, k: RouteKey, via: Argv, was: Option<Argv>)
    ensures RouteLasts(run, [], k, via, was) <==> was == Some(via)
  {
    assert forall i :: !RouteRestoredLast(run, [], k, via, i);
  }

  lemma {:induction false} RememberedUnlisted(run: seq<Event>, k: RouteKey)
    requires forall i | 0 <= i < |run| && run[i].Sync? :: !LinkLists(run[i].links, k)
    ensures !LinkLists(MemoryAfter(run).vxlan, k)
  {
    hide LinkLists, ExtrasAfter, ByName;
    if run == [] {
      NoLinks(map[], k);
    } else {
      var init, last := run[..|run| - 1], run[|run| - 1];
      assert forall i | 0 <= i < |init| :: init[i] == run[i];
      if last.Tick? { RememberedUnlisted(init, k); }
    }
  }

  ghost predicate NoDevice(way: Option<Argv>) { way.Some? ==> Deviceless(way.value) }

  /** One more event, seen by a destination no sync lists. */
  lemma LastingStep(src: LinkView, m: Memory, e: Event, w: Overlay.Wires, w': Overlay.Wires, k: RouteKey)
    requires OverlayRuns.WireStep(src, m, e, w, w') && Proper(m, e) && NoDevice(RouteAt(w.routes, k))
    requires e.Sync? ==> !RouteListed(e.ifaces, k) && !LinkLists(m.vxlan, k) && !LinkLists(e.links, k)
    requires e.Tick? ==> RouteProbeSound(e.probe)
    ensures NoDevice(RouteAt(w'.routes, k))
    ensures RouteAt(w'.routes, k)
            == if e.Sync? then
                 if k in w.routes && !RouteDropped(m.extras, e.ifaces, k, w.routes[k]) then Some(w.routes[k]) else None
               else if RouteListed(m.desired, k) then LastVia(CustomRoutes(m.desired), k) else RouteAt(w.routes, k)
  {
    hide OverlayRuns.WireStep, LinkLists, RouteListed, RouteDropped, RouteProbeSound, Deviceless, CustomRoutes,
         LastVia, DistinctNames, Through,
         WatchNames, WgDevice.Enumerates;
    if e.Sync? {
      DevicelessIsClear(m.vxlan, w.routes, k);
      DevicelessIsClear(e.links, w.routes, k);
      UnlistedRouteOutcome(src, m, e, w, w', k);
    } else {
      SoundTick(src, m, e, w, w', k);
      ListedIffLast(m.desired, k);
      TickFromWatched(src, m, e, w, w', k);
      if k in w'.routes && WatchNames(m.desired, k, w'.routes[k]) { WatchFacts(m.desired, k, w'.routes[k]); }
    }
  }

  /** Over any further run whose syncs never list a destination, and whose ticks use tests that claim nothing that
      is gone, it leaves a certain way at the end exactly when that is the way the last tick found in the
      recorded state and no later sync dropped, or, without such a tick, the way it left before and no sync
      dropped. */
  lemma {:induction false} LeftoverRouteLastsIff(src: LinkView, run: seq<Event>, more: seq<Event>,
                                                 ws: seq<Overlay.Wires>, k: RouteKey)
    requires OverlayRuns.WireRun(src, run + more, ws) && ProperRun(run + more)
    requires NoDevice(RouteAt(ws[|run|].routes, k))
    requires forall i | 0 <= i < |run + more| && (run + more)[i].Sync? :: !LinkLists((run + more)[i].links, k)
    requires forall i | 0 <= i < |more| && more[i].Sync? :: !RouteListed(more[i].ifaces, k)
    requires forall i | 0 <= i < |more| && more[i].Tick? :: RouteProbeSound(more[i].probe)
    ensures var was, now := RouteAt(ws[|run|].routes, k), RouteAt(ws[|run + more|].routes, k);
            NoDevice(now) && forall via :: now == Some(via) <==> RouteLasts(run, more, k, via, was)
  {
    hide OverlayRuns.WireStep, LinkLists, RouteListed, MemoryAfter, ProperRun, Proper, Remember, NoDevice,
         RouteProbeSound, CustomRoutes, LastVia,
         RouteDropped, RouteLasts, RouteAt;
    var was := RouteAt(ws[|run|].routes, k);
    if more == [] {
      assert run + more == run;
      forall via { NoRouteDropped(run, k, via, was); }
    } else {
      var n := |more| - 1;
      var init, e := more[..n], more[n];
      var all := run + init;
      assert run + more == all + [e];
      assert forall i | 0 <= i < n :: init[i] == more[i];
      assert forall i | 0 <= i < |all| :: all[i] == (run + more)[i];
      assert (run + more)[|all|] == e;
      assert (all + [e])[..|all|] == all;
      ProperPrefix(all + [e]);
      LastStep(src, all, e, ws);
      LeftoverRouteLastsIff(src, run, init, ws[..|all| + 1], k);
      RememberedUnlisted(all, k);
      LastingStep(src, MemoryAfter(all), e, ws[|all|], ws[|all| + 1], k);
      forall via { RouteLastsPush(run, more, k, via, was); }
      AtMeans(ws[|all|].routes, k);
    }
  }

  lemma AtMeans(routes: Routes, k: RouteKey)
    ensures RouteAt(routes, k) == if k in routes then Some(routes[k]) else None
  {
  }

  lemma LastFacts(src: LinkView, run: seq<Event>, e: Event, ws: seq<Overlay.Wires>)
    requires OverlayRuns.WireRun(src, run + [e], ws) && ProperRun(run + [e])
    ensures |ws| == |run| + 2 && OverlayRuns.WireRun(src, run, ws[..|run| + 1]) && ProperRun(run)
    ensures Proper(MemoryAfter(run), e) && OverlayRuns.WireStep(src, MemoryAfter(run), e, ws[|run|], ws[|run| + 1])
    ensures MemoryAfter(run + [e]) == Remember(MemoryAfter(run), e)
  {
    hide *;
    LastStep(src, run, e, ws);
    OverlayRuns.MemoryPush(run, e);
    assert (run + [e])[..|run + [e]| - 1] == run && (run + [e])[|run + [e]| - 1] == e;
    ProperPrefix(run + [e]);
  }

  /** The steps of a sync, a tick and another sync at the end of a run. */
  lemma ThreeSteps(src: LinkView, run: seq<Event>, f: Event, tick: Event, g: Event, ws: seq<Overlay.Wires>)
    requires OverlayRuns.WireRun(src, run + [f] + [tick] + [g], ws) && ProperRun(run + [f] + [tick] + [g])
    requires tick.Tick?
    ensures |ws| == |run| + 4
    ensures var m := MemoryAfter(run);
            && Proper(m, f) && OverlayRuns.WireStep(src, m, f, ws[|run|], ws[|run| + 1])
            && OverlayRuns.WireStep(src, Remember(m, f), tick, ws[|run| + 1], ws[|run| + 2])
            && Proper(Remember(m, f), g) && OverlayRuns.WireStep(src, Remember(m, f), g, ws[|run| + 2], ws[|run| + 3])
  {
    hide *;
    var n := |run|;
    LastFacts(src, run + [f] + [tick], g, ws);
    var two := ws[..n + 3];
    LastFacts(src, run + [f], tick, two);
    TickRemembers(MemoryAfter(run + [f]), tick);
    var one := two[..n + 2];
    LastFacts(src, run, f, one);
    assert two[n + 1] == ws[n + 1] && two[n + 2] == ws[n + 2] && one[n] == ws[n] && one[n + 1] == ws[n + 1];
  }

  /** After a failed sync that does not list a destination, and a tick, it leaves as the recorded, older state says
      if that lists it, and otherwise as the one overlay pass of the failed sync left it, unless the sync
      dropped that route. When no link lists the destination, that pass leaves it alone, and the next sync,
      when it does not list it either, removes the route exactly when some interface it desires is
      remembered to have listed that very route. */
  lemma FailedSyncRouteOutcome(src: LinkView, run: seq<Event>, f: Event, tick: Event, g: Event,
                               ws: seq<Overlay.Wires>, k: RouteKey)
    requires OverlayRuns.WireRun(src, run + [f] + [tick] + [g], ws) && ProperRun(run + [f] + [tick] + [g])
    requires f.Sync? && !f.driver.Succeeds() && tick.Tick? && RouteProbeSound(tick.probe) && g.Sync?
    requires !RouteListed(f.ifaces, k)
    ensures var m, was, ticked := MemoryAfter(run), ws[|run|].routes, ws[|run| + 2].routes;
            var passed := Overlay.Reconciled(ws[|run|], src, m.vxlan, f.links).routes;
            && RouteAt(ticked, k)
               == (if RouteListed(m.desired, k) then LastVia(CustomRoutes(m.desired), k)
                   else if k in passed && !RouteDropped(m.extras, f.ifaces, k, passed[k]) then Some(passed[k])
                   else None)
            && (!LinkLists(m.vxlan, k) && !LinkLists(f.links, k) && NoDevice(RouteAt(was, k)) ==>
                  && RouteAt(passed, k) == RouteAt(was, k)
                  && (!LinkLists(g.links, k) && !RouteListed(g.ifaces, k) ==>
                        RouteAt(ws[|run| + 3].routes, k)
                        == if k in ticked && !RouteDropped(Remember(m, f).extras, g.ifaces, k, ticked[k])
                            then Some(ticked[k]) else None))
  {
    hide OverlayRuns.WireStep, OverlayRuns.WireRun, LinkLists, RouteListed, MemoryAfter, ProperRun, Proper, NoDevice,
         RouteProbeSound, CustomRoutes, LastVia, RouteDropped, Remember, Overlay.Reconciled;
    var m, n := MemoryAfter(run), |run|;
    ThreeSteps(src, run, f, tick, g, ws);
    RuleTheorems.DesiredOf(m, f);
    FailedRouteStep(src, m, f, ws[n], ws[n + 1], k);
    TickStep(src, Remember(m, f), tick, ws[n + 1], ws[n + 2], k);
    if !LinkLists(m.vxlan, k) && !LinkLists(f.links, k) && NoDevice(RouteAt(ws[n].routes, k)) {
      LinksOf(m, f);
      QuietPass(src, m, f, ws[n], k);
      LastingStep(src, m, f, ws[n], ws[n + 1], k);
      ProperTick(Remember(m, f), tick);
      LastingStep(src, Remember(m, f), tick, ws[n + 1], ws[n + 2], k);
      if !LinkLists(g.links, k) && !RouteListed(g.ifaces, k) {
        LastingStep(src, Remember(m, f), g, ws[n + 2], ws[n + 3], k);
      }
    }
  }

  lemma FailedRouteStep(src: LinkView, m: Memory, f: Event, w: Overlay.Wires, w': Overlay.Wires, k: RouteKey)
    requires f.Sync? && !f.driver.Succeeds() && Proper(m, f) && OverlayRuns.WireStep(src, m, f, w, w')
    requires !RouteListed(f.ifaces, k)
    ensures var passed := Overlay.Reconciled(w, src, m.vxlan, f.links).routes;
            RouteAt(w'.routes, k)
            == if k in passed && !RouteDropped(m.extras, f.ifaces, k, passed[k]) then Some(passed[k]) else None
  {
    hide Overlay.Reconciled, RouteListed, RouteDropped, DistinctNames, ExtrasRoutes, WgDevice.Enumerates;
    UnlistedVisits(Overlay.Reconciled(w, src, m.vxlan, f.links).routes, m.extras, f.ifaces, k);
  }

  lemma TickStep(src: LinkView, m: Memory, e: Event, w: Overlay.Wires, w': Overlay.Wires, k: RouteKey)
    requires e.Tick? && OverlayRuns.WireStep(src, m, e, w, w') && RouteProbeSound(e.probe)
    ensures RouteAt(w'.routes, k)
            == if RouteListed(m.desired, k) then LastVia(CustomRoutes(m.desired), k) else RouteAt(w.routes, k)
  {
    hide OverlayRuns.WireStep, RouteListed, RouteProbeSound, CustomRoutes, LastVia;
    SoundTick(src, m, e, w, w', k);
    ListedIffLast(m.desired, k);
  }

  lemma QuietPass(src: LinkView, m: Memory, f: Event, w: Overlay.Wires, k: RouteKey)
    requires f.Sync? && !LinkLists(m.vxlan, k) && !LinkLists(f.links, k) && NoDevice(RouteAt(w.routes, k))
    ensures RouteAt(Overlay.Reconciled(w, src, m.vxlan, f.links).routes, k) == RouteAt(w.routes, k)
  {
    hide Overlay.Reconciled, LinkLists, Deviceless, Through;
    DevicelessIsClear(m.vxlan, w.routes, k);
    DevicelessIsClear(f.links, w.routes, k);
    PassLeaves(w, src, m.vxlan, f.links, k);
  }

  lemma ProperTick(m: Memory, e: Event)
    requires e.Tick?
    ensures Proper(m, e)
  {
  }

  lemma LinksOf(m: Memory, e: Event)
    requires e.Sync?
    ensures Remember(m, e).vxlan == e.links
  {
  }

  /** The custom routes of an interface that vanishes stay: after adding and removing an interface a
      destination the host had no route for has one exactly when the interface listed it. */
  lemma VanishedRouteStaysIff(net: Net, src: LinkView, a: Interface, links: seq<LinkConfig>, ws: seq<Overlay.Wires>,
                              k: RouteKey)
    requires OverlayRuns.WireRun(src, RuleTheorems.AddRemove(a, links), ws)
    requires k !in ws[0].routes && !LinkLists(links, k)
    ensures ProperRun(RuleTheorems.AddRemove(a, links))
    ensures k in ws[2].routes <==> ListsRoute(a.extras, k)
    ensures k in ws[2].routes ==> Some(ws[2].routes[k]) == LastVia(RouteList(a.extras.routes), k)
  {
    hide OverlayRuns.WireStep, LinkLists, MemoryAfter, ProperRun, Proper, RouteDropped, ListsRoute, RouteList, LastVia;
    var e, f := Sync([a], links, [], InKernel), Sync([], links, [a.name], InKernel);
    RuleTheorems.OneSync(net, a, links);
    RuleTheorems.AddRemoveProper(net, a, links);
    assert [] + [e] == [e];
    LastStep(src, [e], f, ws);
    LastStep(src, [], e, ws[..2]);
    FirstSyncRoutes(src, a, links, ws[0], ws[1], k);
    if k in ws[1].routes {
      ListsIffNames(a.extras, k);
      NamesNoDevice(a.extras, k, ws[1].routes[k]);
      DevicelessIsClear(links, ws[1].routes, k);
    }
    assert !RouteListed([], k) && forall via :: !RouteDropped(MemoryAfter([e]).extras, [], k, via)
        by { NoIfaces(MemoryAfter([e]), k); }
    UnlistedRouteOutcome(src, MemoryAfter([e]), f, ws[1], ws[2], k);
  }

  lemma NoIfaces(m: Memory, k: RouteKey)
    ensures !RouteListed([], k) && forall via :: !RouteDropped(m.extras, [], k, via)
  {
  }

  lemma FirstSyncRoutes(src: LinkView, a: Interface, links: seq<LinkConfig>, w: Overlay.Wires, w': Overlay.Wires,
                        k: RouteKey)
    requires OverlayRuns.WireStep(src, MemoryAfter([]), Sync([a], links, [], InKernel), w, w')
    requires k !in w.routes && !LinkLists(links, k)
    ensures k in w'.routes <==> ListsRoute(a.extras, k)
    ensures k in w'.routes ==> Some(w'.routes[k]) == LastVia(RouteList(a.extras.routes), k)
  {
    hide Overlay.Reconciled, LinkLists, Through, RouteList, RoutesAfter;
    var first := Overlay.Reconciled(w, src, [], links);
    NoLinks(w.routes, k);
    PassLeaves(w, src, [], links, k);
    assert [a][..0] == [];
    assert ExtrasOf(ExtrasAfter(map[], []), a.name).routes == [];
    var custom := ExtrasRoutes(first.routes, map[], [a]);
    assert ExtrasRoutes(first.routes, map[], []) == first.routes;
    assert custom == RoutesAfter(first.routes, [], a.extras.routes);
    FromNothing(first.routes, a.extras, k);
    if k in custom {
      ListsIffNames(a.extras, k);
      NamesNoDevice(a.extras, k, custom[k]);
      DevicelessIsClear(links, custom, k);
    }
    NoLinks(custom, k);
    PassLeaves(Overlay.Wires(first.links, custom), src, [], links, k);
  }

  lemma FromNothing(routes: Routes, x: Extras, k: RouteKey)
    requires k !in routes
    ensures var r := RoutesAfter(routes, [], x.routes);
            (k in r <==> ListsRoute(x, k)) && (k in r ==> Some(r[k]) == LastVia(RouteList(x.routes), k))
  {
    hide RoutesAfter, KeyFor, ViaFor;
    EmptyLists();
    if ListsRoute(x, k) {
      WantedRouteOutcome(routes, [], x.routes, k);
    } else {
      UnwantedRouteOutcome(routes, [], x.routes, k);
    }
  }

  // ---- the second overlay pass of a sync --------------------------------------------------------

  /** No custom route, wanted or remembered, is for a destination that some link lists. */
  ghost predicate CustomApart(x: ExtrasMap, ifaces: seq<Interface>, prev: seq<LinkConfig>, next: seq<LinkConfig>) {
    forall k | LinkLists(prev, k) || LinkLists(next, k) :: !RouteListed(ifaces, k) && NobodyLists(x, k)
  }

  lemma {:induction false} ListedByLink(cfgs: seq<LinkConfig>, k: RouteKey)
    requires OverlayConvergence.ListedVia(Overlay.Named(cfgs), k).Some?
    ensures LinkLists(cfgs, k)
  {
    hide LinkLists, RouteKeyOf, RouteVia, Text.Fields;
    if !LinkLists(cfgs, k) {
      OverlayConvergence.NamedFacts(cfgs);
      forall c | c in Overlay.Named(cfgs) ensures OverlayConvergence.SpecVia(c.routes,
                                                                             k).None? { NoSpecOf(cfgs, c, k); }
      NoneListed(Overlay.Named(cfgs), k);
    }
  }

  lemma NoSpecOf(cfgs: seq<LinkConfig>, c: LinkConfig, k: RouteKey)
    requires c in cfgs && !LinkLists(cfgs, k)
    ensures OverlayConvergence.SpecVia(c.routes, k).None?
  {
    hide RouteKeyOf, RouteVia, Text.Fields;
    NoSpec(c.routes, k);
  }

  lemma {:induction false} NoneListed(cfgs: seq<LinkConfig>, k: RouteKey)
    requires forall c | c in cfgs :: OverlayConvergence.SpecVia(c.routes, k).None?
    ensures OverlayConvergence.ListedVia(cfgs, k).None?
  {
    hide OverlayConvergence.SpecVia, Overlay.Applicable;
    if cfgs != [] {
      assert cfgs[|cfgs| - 1] in cfgs;
      NoneListed(cfgs[..|cfgs| - 1], k);
    }
  }

  lemma StaleByLink(prev: seq<LinkConfig>, next: seq<LinkConfig>, k: RouteKey, via: Argv)
    requires OverlayConvergence.NamedBy(Overlay.StaleList(prev, next), k, via)
    ensures LinkLists(prev, k)
  {
    hide RouteKeyOf, RouteVia, Text.Fields, Overlay.StaleList;
    var stale := Overlay.StaleList(prev, next);
    var i :| 0 <= i < |stale| && RouteKeyOf(Text.Fields(stale[i])) == k && RouteVia(Text.Fields(stale[i])) == via;
    StaleComesFromPrev(prev, next, stale[i]);
  }

  lemma CustomLeavesSettled(routes: Routes, x: ExtrasMap, ifaces: seq<Interface>, prev: seq<LinkConfig>,
                            next: seq<LinkConfig>)
    requires DistinctNames(ifaces) && CustomApart(x, ifaces, prev, next)
    ensures OverlayConvergence.RoutesSettled(ExtrasRoutes(routes, x, ifaces), prev, next)
            <==> OverlayConvergence.RoutesSettled(routes, prev, next)
  {
    hide ExtrasRoutes, LinkLists, RouteListed, NobodyLists, OverlayConvergence.ListedVia, OverlayConvergence.NamedBy,
         Overlay.StaleList,
         Overlay.Named, RouteDropped, DistinctNames;
    var custom := ExtrasRoutes(routes, x, ifaces);
    forall k | LinkLists(prev, k) || LinkLists(next, k) ensures SameAt(custom, routes, k) {
      UnlistedVisits(routes, x, ifaces, k);
      if k in routes { NobodyDrops(x, ifaces, k, routes[k]); }
    }
    forall k | OverlayConvergence.ListedVia(Overlay.Named(next), k).Some?
        ensures LinkLists(next, k) { ListedByLink(next, k); }
    forall k, via | OverlayConvergence.NamedBy(Overlay.StaleList(prev, next), k, via) ensures LinkLists(prev, k) {
      StaleByLink(prev, next, k, via);
    }
  }

  /** The second overlay pass of a sync, after the custom routes were converged, changes nothing exactly when those
      left every route the links list in place and brought back none that is stale. When they have nothing to
      do with the destinations of links, that is so exactly when the first pass lost no listed route to a
      rebuilt link. */
  lemma SyncSecondPassIff(w: Overlay.Wires, src: LinkView, x: ExtrasMap, ifaces: seq<Interface>,
                          prev: seq<LinkConfig>, next: seq<LinkConfig>)
    requires DistinctNames(ifaces) && OverlayConvergence.DistinctLinks(next)
             && OverlayConvergence.Attainable(w.links, src, next)
    ensures var custom := SyncWires(w, src, x, ifaces, prev, next, false);
            && (SyncWires(w, src, x, ifaces, prev, next, true) == custom
                <==> OverlayConvergence.RoutesSettled(custom.routes, prev, next))
            && (CustomApart(x, ifaces, prev, next) ==>
                  (SyncWires(w, src, x, ifaces, prev, next, true) == custom
                   <==> OverlayConvergence.NoneLost(w.links, Overlay.Named(next))))
  {
    hide Overlay.Reconciled, ExtrasRoutes, OverlayConvergence.RoutesSettled, OverlayConvergence.NoneLost,
         OverlayConvergence.AllInPlace,
         OverlayConvergence.Attainable, CustomApart, Overlay.RemoveList, Overlay.Named, DistinctNames;
    var first := Overlay.Reconciled(w, src, prev, next);
    var custom := Overlay.Wires(first.links, ExtrasRoutes(first.routes, x, ifaces));
    OverlayConvergence.PassPutsInPlace(w, src, prev, next);
    OverlayConvergence.InPlacePassIff(custom, src, prev, next);
    if CustomApart(x, ifaces, prev, next) { CustomLeavesSettled(first.routes, x, ifaces, prev, next); }
  }
}
