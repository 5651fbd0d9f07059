/** What a pass over the overlay links achieves, and why running it again changes nothing. */
module OverlayConvergence {
  import opened Text
  import opened Host
  import opened Counts
  import opened OverlayLink
  import opened OverlayFirewall
  import opened Overlay

  /** No two links of a configuration share a name. */
  ghost predicate DistinctLinks(cfgs: seq<Config>) {
    forall i, j | 0 <= i < j < |cfgs| :: cfgs[i].name != "" ==> cfgs[i].name != cfgs[j].name
  }

  ghost predicate AllNamed(cfgs: seq<Config>) {
    forall i | 0 <= i < |cfgs| :: cfgs[i].name != ""
  }

  /** A link the kernel makes from c is accepted for c (see OwnConfigAccepted for when that is). */
  predicate Buildable(src: LinkView, c: Config) {
    Matches(Show(AddArgs(c), src.sourceFor(AddArgs(c))), c)
  }

  // ---- names ------------------------------------------------------------------------------------

  lemma {:induction false} RemoveListMembers(prev: seq<Config>, next: seq<Config>, n: string)
    ensures n in RemoveList(prev, next) <==> n != "" && Names(prev, n) && !Names(next, n)
  {
    if prev != [] {
      var init, last := prev[..|prev| - 1], prev[|prev| - 1];
      RemoveListMembers(init, next, n);
      NamesLast(prev, n);
    }
  }

  lemma NamesLast(cfgs: seq<Config>, n: string)
    requires cfgs != []
    ensures Names(cfgs, n) <==> Names(cfgs[..|cfgs| - 1], n) || cfgs[|cfgs| - 1].name == n
  {
    if Names(cfgs[..|cfgs| - 1], n) {
      var i :| 0 <= i < |cfgs| - 1 && cfgs[..|cfgs| - 1][i].name == n;
      assert cfgs[i].name == n;
    }
  }

  /** The named configurations keep their order and their distinctness. */
  lemma {:induction false} NamedFacts(cfgs: seq<Config>)
    ensures AllNamed(Named(cfgs))
    ensures forall c :: c in Named(cfgs) <==> c in cfgs && c.name != ""
    ensures DistinctLinks(cfgs) ==> DistinctLinks(Named(cfgs))
  {
    if cfgs != [] {
      var init, last := cfgs[..|cfgs| - 1], cfgs[|cfgs| - 1];
      assert cfgs == init + [last];
      NamedFacts(init);
      if DistinctLinks(cfgs) {
        forall i | 0 <= i < |Named(init)| ensures Named(init)[i].name != last.name || last.name == "" {
          assert Named(init)[i] in init;
          var j :| 0 <= j < |init| && init[j] == Named(init)[i];
          assert cfgs[j].name != cfgs[|cfgs| - 1].name;
        }
      }
    }
  }

  // ---- links ------------------------------------------------------------------------------------

  lemma {:induction false} RemoveAllGives(w: Wires, names: seq<string>, n: string)
    ensures var r := RemoveAll(w, names);
            && (n in r.links <==> n in w.links && n !in names)
            && (n in r.links ==> r.links[n] == w.links[n])
  {
    hide FlushDevice;
    if names != [] {
      assert names == names[..|names| - 1] + [names[|names| - 1]];
      RemoveAllGives(w, names[..|names| - 1], n);
    }
  }

  /** Each applicable link is configured on top of what was there or of a fresh link; a name that no
      applicable link has is left alone. */
  lemma {:induction false} EnsureAllGives(w: Wires, src: LinkView, cfgs: seq<Config>, n: string)
    requires AllNamed(cfgs) && DistinctLinks(cfgs)
    ensures var r := EnsureAll(w, src, cfgs);
            && (forall i | 0 <= i < |cfgs| && Applicable(cfgs[i]) && cfgs[i].name == n ::
                  n in r.links && r.links[n] == Configured(src, Built(w.links, src, cfgs[i]), cfgs[i]))
            && ((forall i | 0 <= i < |cfgs| && Applicable(cfgs[i]) :: cfgs[i].name != n) ==>
                  (n in r.links <==> n in w.links) && (n in r.links ==> r.links[n] == w.links[n]))
  {
    hide Applicable, Matches, Show, AddArgs, LinkMTU, EnsuredRoutes;
    if cfgs != [] {
      var m := |cfgs| - 1;
      var init, last := cfgs[..m], cfgs[m];
      EnsureAllGives(w, src, init, n);
      assert forall i | 0 <= i < m :: cfgs[i] == init[i];
      if last.name == n {
        assert forall i | 0 <= i < m :: init[i].name != n;
      }
    }
  }

  /** Where an applicable link of the new configuration ends up. */
  ghost predicate LinkInPlace(src: LinkView, links: Links, c: Config) {
    && Reusable(links, c)
    && links[c.name].up && HasAddress(src, links[c.name], c)
    && (LinkMTU(c) > 0 ==> links[c.name].mtu == LinkMTU(c))
  }

  /** The wanted address is listed, or it is the only one there is. */
  ghost predicate HasAddress(src: LinkView, l: Link, c: Config) {
    src.Shows(l.addrs, c.local) || l.addrs == {c.local}
  }

  lemma ConfiguredInPlace(src: LinkView, links: Links, l: Link, c: Config)
    requires Matches(Show(l.argv, l.source), c)
    requires c.name in links && links[c.name] == Configured(src, l, c)
    ensures LinkInPlace(src, links, c)
  {
    hide Matches, Show, LinkMTU;
  }

  lemma ConfiguredAgain(src: LinkView, links: Links, c: Config)
    requires LinkInPlace(src, links, c)
    ensures Configured(src, links[c.name], c) == links[c.name]
  {
    hide Matches, Show, LinkMTU;
  }

  /** Links after one pass. Links the new configuration lost are gone; every applicable link exists,
      is up, has its address and MTU, and is accepted by the test; all other links are untouched. */
  lemma LinksConverge(w: Wires, src: LinkView, prev: seq<Config>, next: seq<Config>)
    requires DistinctLinks(next)
    ensures var r := Reconciled(w, src, prev, next);
            && (forall n | n != "" && Names(prev, n) && !Names(next, n) :: n !in r.links)
            && (forall c | c in next && Applicable(c) && (Reusable(w.links, c) || Buildable(src, c)) ::
                LinkInPlace(src, r.links, c))
            && (forall n | (n == "" || !Names(prev, n) || Names(next, n))
                && (forall c | c in next && Applicable(c) :: c.name != n) ::
                  (n in r.links <==> n in w.links) && (n in r.links ==> r.links[n] == w.links[n]))
  {
    hide Applicable, Matches, Show, AddArgs, LinkMTU, RemoveAll, EnsureAll, Configured, DeleteSpecs, StaleList, Named,
         RemoveList, Names;
    var removed := RemoveAll(w, RemoveList(prev, next));
    var start := Wires(removed.links, DeleteSpecs(removed.routes, StaleList(prev, next)));
    var r := Reconciled(w, src, prev, next);
    NamedFacts(next);
    forall n
      ensures n in removed.links <==> n in w.links && !(n != "" && Names(prev, n) && !Names(next, n))
      ensures n in removed.links ==> removed.links[n] == w.links[n]
    {
      RemoveListMembers(prev, next, n);
      RemoveAllGives(w, RemoveList(prev, next), n);
    }
    forall n { EnsureAllGives(start, src, Named(next), n); }
    forall c | c in next && Applicable(c) && (Reusable(w.links, c) || Buildable(src, c))
        ensures LinkInPlace(src, r.links, c) {
      NameListed(next, c);
      ListedLink(w, removed.links, src, next, c);
      var i :| 0 <= i < |Named(next)| && Named(next)[i] == c;
      EnsureAllGives(start, src, Named(next), c.name);
      ConfiguredInPlace(src, r.links, Built(removed.links, src, c), c);
    }
    forall n | n != "" && Names(prev, n) && !Names(next, n) ensures n !in r.links {
      NotListed(next, n);
    }
  }

  lemma NameListed(cfgs: seq<Config>, c: Config)
    requires c in cfgs
    ensures Names(cfgs, c.name)
  {
  }

  lemma NotListed(next: seq<Config>, n: string)
    requires !Names(next, n)
    ensures forall c | c in next :: c.name != n
  {
  }

  lemma ListedLink(w: Wires, links: Links, src: LinkView, next: seq<Config>, c: Config)
    requires c in next && Applicable(c)
    requires c.name in links <==> c.name in w.links
    requires c.name in links ==> links[c.name] == w.links[c.name]
    ensures c in Named(next) && (Reusable(links, c) <==> Reusable(w.links, c))
  {
    hide Matches, Show;
    NamedFacts(next);
  }

  // ---- routes -----------------------------------------------------------------------------------

  /** The way out the last spec for a key asks for. */
  function SpecVia(specs: seq<string>, k: RouteKey): Option<Argv> {
    if specs == [] then None
    else
      var f := Fields(specs[|specs| - 1]);
      if RouteKeyOf(f) == k then Some(RouteVia(f)) else SpecVia(specs[..|specs| - 1], k)
  }

  /** The way out the last applicable link that lists the key asks for. */
  function ListedVia(cfgs: seq<Config>, k: RouteKey): Option<Argv> {
    if cfgs == [] then None
    else
      var last := cfgs[|cfgs| - 1];
      if Applicable(last) && SpecVia(last.routes, k).Some? then SpecVia(last.routes, k)
      else ListedVia(cfgs[..|cfgs| - 1], k)
  }

  /** The key is listed, and after its last lister comes the turn of the device its route uses, which is
      rebuilt: the route just installed goes with the old device. */
  ghost predicate LostLater(links: Links, cfgs: seq<Config>, k: RouteKey) {
    exists i :: LosesAt(links, cfgs, k, i)
  }

  ghost predicate LosesAt(links: Links, cfgs: seq<Config>, k: RouteKey, i: int) {
    && 0 <= i < |cfgs| && Applicable(cfgs[i]) && Rebuilt(links, cfgs[i])
    && ListedVia(cfgs, k).Some? && UsesDevice(ListedVia(cfgs, k).value, cfgs[i].name)
    && forall j | i <= j < |cfgs| && Applicable(cfgs[j]) :: SpecVia(cfgs[j].routes, k).None?
  }

  lemma {:induction false} ReplaceSpecsGives(routes: Routes, specs: seq<string>, k: RouteKey)
    ensures var r := ReplaceSpecs(routes, specs);
            match SpecVia(specs, k)
            case Some(via) => k in r && r[k] == via
            case None => (k in r <==> k in routes) && (k in r ==> r[k] == routes[k])
  {
    hide Fields, RouteKeyOf, RouteVia;
    if specs != [] {
      ReplaceSpecsGives(routes, specs[..|specs| - 1], k);
    }
  }

  /** Some applicable link is rebuilt, and the route leaves through it. */
  ghost predicate Flushed(links: Links, cfgs: seq<Config>, via: Argv) {
    exists i | 0 <= i < |cfgs| ::
      Applicable(cfgs[i]) && Rebuilt(links, cfgs[i]) && UsesDevice(via, cfgs[i].name)
  }

  lemma EnsuredRoutesGives(links: Links, routes: Routes, c: Config, k: RouteKey)
    ensures var r := EnsuredRoutes(links, routes, c);
            match SpecVia(c.routes, k)
            case Some(via) => k in r && r[k] == via
            case None =>
              (k in r <==> k in routes && !(Rebuilt(links, c) && UsesDevice(routes[k], c.name)))
              && (k in r ==> r[k] == routes[k])
  {
    hide Matches, Show, UsesDevice;
    ReplaceSpecsGives(FlushedRoutes(links, routes, c), c.routes, k);
  }

  lemma FlushedPush(links: Links, cfgs: seq<Config>, via: Argv)
    requires cfgs != []
    ensures var last := cfgs[|cfgs| - 1];
            Flushed(links, cfgs, via) <==>
              || Flushed(links, cfgs[..|cfgs| - 1], via)
              || (Applicable(last) && Rebuilt(links, last) && UsesDevice(via, last.name))
  {
    hide Matches, Show, UsesDevice, Applicable;
    assert forall i | 0 <= i < |cfgs| - 1 :: cfgs[..|cfgs| - 1][i] == cfgs[i];
  }

  lemma LostPush(links: Links, cfgs: seq<Config>, k: RouteKey)
    requires cfgs != []
    ensures var init, last := cfgs[..|cfgs| - 1], cfgs[|cfgs| - 1];
            LostLater(links, cfgs, k) <==>
              && !(Applicable(last) && SpecVia(last.routes, k).Some?)
              && (|| LostLater(links, init, k)
                  || (Applicable(last) && Rebuilt(links, last) && ListedVia(init, k).Some?
                      && UsesDevice(ListedVia(init, k).value, last.name)))
  {
    hide Rebuilt, UsesDevice, Applicable, SpecVia;
    var m := |cfgs| - 1;
    var init, last := cfgs[..m], cfgs[m];
    assert forall i | 0 <= i < m :: init[i] == cfgs[i];
    if Applicable(last) && SpecVia(last.routes, k).Some? {
      forall i ensures !LosesAt(links, cfgs, k, i) { }
    } else {
      assert ListedVia(cfgs, k) == ListedVia(init, k);
      if i :| LosesAt(links, cfgs, k, i) {
        if i < m { assert LosesAt(links, init, k, i); }
      }
      if i :| LosesAt(links, init, k, i) { assert LosesAt(links, cfgs, k, i); }
      if Applicable(last) && Rebuilt(links, last) && ListedVia(init, k).Some?
          && UsesDevice(ListedVia(init, k).value, last.name) {
        assert LosesAt(links, cfgs, k, m);
      }
    }
  }

  /** Routes after the links are ensured: a listed key has the last listed way out, unless that route
      uses a device that is rebuilt later; any other route stays unless the link it leaves through was
      rebuilt. */
  lemma {:induction false} EnsureAllRoutes(w: Wires, src: LinkView, cfgs: seq<Config>, k: RouteKey)
    requires AllNamed(cfgs) && DistinctLinks(cfgs)
    ensures var r := EnsureAll(w, src, cfgs);
            match ListedVia(cfgs, k)
            case Some(via) => (k in r.routes <==> !LostLater(w.links, cfgs, k))
                && (k in r.routes ==> r.routes[k] == via)
            case None =>
              (k in r.routes <==> k in w.routes && !Flushed(w.links, cfgs, w.routes[k]))
              && (k in r.routes ==> r.routes[k] == w.routes[k])
  {
    hide Applicable, Matches, Show, AddArgs, LinkMTU, EnsuredRoutes, UsesDevice, SpecVia, EnsuredLinks, Flushed,
         LostLater, Rebuilt;
    if cfgs == [] {
      NothingFlushed(w.links);
    } else {
      var m := |cfgs| - 1;
      var init, last := cfgs[..m], cfgs[m];
      assert forall i | 0 <= i < m :: cfgs[i] == init[i];
      EnsureAllRoutes(w, src, init, k);
      var mid := EnsureAll(w, src, init);
      SameLink(w, src, init, last);
      EnsuredRoutesGives(mid.links, mid.routes, last, k);
      forall via { FlushedPush(w.links, cfgs, via); }
      LostPush(w.links, cfgs, k);
    }
  }

  lemma NothingFlushed(links: Links)
    ensures forall via :: !Flushed(links, [], via)
  {
  }

  /** When a link's turn comes, it still is what it was at the start. */
  lemma SameLink(w: Wires, src: LinkView, init: seq<Config>, c: Config)
    requires AllNamed(init) && DistinctLinks(init) && forall i | 0 <= i < |init| :: init[i].name != c.name
    ensures var mid := EnsureAll(w, src, init);
            && (c.name in mid.links <==> c.name in w.links)
            && (c.name in mid.links ==> mid.links[c.name] == w.links[c.name])
            && (Reusable(mid.links, c) <==> Reusable(w.links, c)) && (Rebuilt(mid.links, c) <==> Rebuilt(w.links, c))
  {
    hide Applicable, Matches, Show, AddArgs, LinkMTU, EnsuredRoutes;
    EnsureAllGives(w, src, init, c.name);
  }

  /** A stale spec names exactly this route. */
  ghost predicate NamedBy(specs: seq<string>, k: RouteKey, via: Argv) {
    exists i | 0 <= i < |specs| :: RouteKeyOf(Fields(specs[i])) == k && RouteVia(Fields(specs[i])) == via
  }

  lemma {:induction false} DeleteSpecsGives(routes: Routes, specs: seq<string>, k: RouteKey)
    ensures var r := DeleteSpecs(routes, specs);
            && (k in r <==> k in routes && !NamedBy(specs, k, routes[k]))
            && (k in r ==> r[k] == routes[k])
  {
    hide Fields, RouteKeyOf, RouteVia;
    if specs != [] {
      var init := specs[..|specs| - 1];
      DeleteSpecsGives(routes, init, k);
      assert forall i | 0 <= i < |init| :: specs[i] == init[i];
      if k in routes && NamedBy(init, k, routes[k]) {
        var i :| 0 <= i < |init| && RouteKeyOf(Fields(init[i])) == k && RouteVia(Fields(init[i])) == routes[k];
        assert RouteKeyOf(Fields(specs[i])) == k;
      }
    }
  }

  /** A removed link that existed took the route with it. */
  ghost predicate Dropped(links: Links, names: seq<string>, via: Argv) {
    exists n :: n in names && n in links && UsesDevice(via, n)
  }

  lemma {:induction false} RemoveAllRoutes(w: Wires, names: seq<string>, k: RouteKey)
    ensures var r := RemoveAll(w, names);
            && (k in r.routes <==> k in w.routes && !Dropped(w.links, names, w.routes[k]))
            && (k in r.routes ==> r.routes[k] == w.routes[k])
  {
    hide UsesDevice;
    if names != [] {
      var init, last := names[..|names| - 1], names[|names| - 1];
      assert names == init + [last];
      RemoveAllRoutes(w, init, k);
      RemoveAllGives(w, init, last);
    }
  }

  /** The route is lost with a link or deleted by name. */
  ghost predicate Swept(w: Wires, prev: seq<Config>, next: seq<Config>, k: RouteKey)
    requires k in w.routes
  {
    || Dropped(w.links, RemoveList(prev, next), w.routes[k])
    || NamedBy(StaleList(prev, next), k, w.routes[k])
    || Flushed(w.links, Named(next), w.routes[k])
  }

  /** Removing links leaves alone what the new configuration names. */
  lemma SurvivorsUntouched(w: Wires, prev: seq<Config>, next: seq<Config>, c: Config)
    requires c in next
    ensures var links := RemoveAll(w, RemoveList(prev, next)).links;
            (Reusable(links, c) <==> Reusable(w.links, c)) && (Rebuilt(links, c) <==> Rebuilt(w.links, c))
  {
    hide Matches, Show, RemoveAll, RemoveList, Names;
    NameListed(next, c);
    RemoveListMembers(prev, next, c.name);
    RemoveAllGives(w, RemoveList(prev, next), c.name);
  }

  lemma SameRebuilt(a: Links, b: Links, cfgs: seq<Config>, k: RouteKey)
    requires forall i | 0 <= i < |cfgs| :: Rebuilt(a, cfgs[i]) <==> Rebuilt(b, cfgs[i])
    ensures LostLater(a, cfgs, k) <==> LostLater(b, cfgs, k)
    ensures forall via :: Flushed(a, cfgs, via) <==> Flushed(b, cfgs, via)
  {
    hide Rebuilt, UsesDevice, Applicable, SpecVia, ListedVia;
    if i :| LosesAt(a, cfgs, k, i) { assert LosesAt(b, cfgs, k, i); }
    if i :| LosesAt(b, cfgs, k, i) { assert LosesAt(a, cfgs, k, i); }
  }

  /** Routes after one pass. A key some applicable link lists has the last listed way out, even when the
      same spec was just deleted for another link; it is missing exactly when that route uses a link
      that is rebuilt after its last lister had its turn. A key nobody lists keeps its route unless a
      stale spec names it exactly or its link was removed or rebuilt. */
  lemma RoutesConverge(w: Wires, src: LinkView, prev: seq<Config>, next: seq<Config>, k: RouteKey)
    requires DistinctLinks(next)
    ensures var r := Reconciled(w, src, prev, next);
            match ListedVia(Named(next), k)
            case Some(via) => (k in r.routes <==> !LostLater(w.links, Named(next), k))
                && (k in r.routes ==> r.routes[k] == via)
            case None =>
              && (k in r.routes <==> k in w.routes && !Swept(w, prev, next, k))
              && (k in r.routes ==> r.routes[k] == w.routes[k])
  {
    hide UsesDevice, RemoveAll, EnsureAll, DeleteSpecs, StaleList, Named, RemoveList, Names, ListedVia, Flushed,
         NamedBy, Dropped, LostLater, Rebuilt, Reusable;
    var removed := RemoveAll(w, RemoveList(prev, next));
    var start := Wires(removed.links, DeleteSpecs(removed.routes, StaleList(prev, next)));
    NamedFacts(next);
    forall i | 0 <= i < |Named(next)| ensures Rebuilt(start.links, Named(next)[i]) <==>
        Rebuilt(w.links, Named(next)[i]) {
      assert Named(next)[i] in Named(next);
      SurvivorsUntouched(w, prev, next, Named(next)[i]);
    }
    SameRebuilt(start.links, w.links, Named(next), k);
    RemoveAllRoutes(w, RemoveList(prev, next), k);
    DeleteSpecsGives(removed.routes, StaleList(prev, next), k);
    EnsureAllRoutes(start, src, Named(next), k);
  }

  // ---- running the pass again -------------------------------------------------------------------

  /** Links and routes a pass from prev to next would not change. */
  ghost predicate Converged(src: LinkView, w: Wires, prev: seq<Config>, next: seq<Config>) {
    && (forall n | n in RemoveList(prev, next) :: n !in w.links)
    && (forall c | c in next && Applicable(c) :: LinkInPlace(src, w.links, c))
    && RoutesSettled(w.routes, prev, next)
  }

  /** Every listed key has the last listed way out, and no stale spec names a route that is there. */
  ghost predicate RoutesSettled(routes: Routes, prev: seq<Config>, next: seq<Config>) {
    && (forall k | ListedVia(Named(next), k).Some? :: k in routes && routes[k] == ListedVia(Named(next), k).value)
    && (forall k | k in routes && ListedVia(Named(next), k).None? :: !NamedBy(StaleList(prev, next), k, routes[k]))
  }

  /** No listed route is lost to the rebuilding of another link. */
  ghost predicate NoneLost(links: Links, cfgs: seq<Config>) {
    forall k :: !LostLater(links, cfgs, k)
  }

  /** Each applicable link is accepted as it is, or would be when made anew. */
  ghost predicate Attainable(links: Links, src: LinkView, next: seq<Config>) {
    forall c | c in next && Applicable(c) :: Reusable(links, c) || Buildable(src, c)
  }

  /** One pass converges exactly when it loses no listed route, provided the kernel's own rendering of
      each new link is accepted. */
  lemma PassConvergesIff(w: Wires, src: LinkView, prev: seq<Config>, next: seq<Config>)
    requires DistinctLinks(next) && Attainable(w.links, src, next)
    ensures Converged(src, Reconciled(w, src, prev, next), prev, next) <==> NoneLost(w.links, Named(next))
  {
    hide LinkInPlace, Reconciled, NamedBy, StaleList, Named, ListedVia, Applicable, Reusable, Swept, RemoveList,
         Names, Dropped, Flushed, LostLater;
    var r := Reconciled(w, src, prev, next);
    LinksConverge(w, src, prev, next);
    forall k { RoutesConverge(w, src, prev, next, k); }
    forall n { RemoveListMembers(prev, next, n); }
    forall k | k in w.routes && NamedBy(StaleList(prev, next), k, w.routes[k]) { SweptByName(w, prev, next, k); }
    forall k | LostLater(w.links, Named(next), k) ensures ListedVia(Named(next),
                                                                    k).Some? { LostIsListed(w.links, Named(next), k); }
  }

  lemma LostIsListed(links: Links, cfgs: seq<Config>, k: RouteKey)
    requires LostLater(links, cfgs, k)
    ensures ListedVia(cfgs, k).Some? && exists i | 0 <= i < |cfgs| :: Applicable(cfgs[i]) && Rebuilt(links, cfgs[i])
  {
    hide ListedVia, Applicable, Rebuilt;
    var i :| LosesAt(links, cfgs, k, i);
  }

  lemma SweptByName(w: Wires, prev: seq<Config>, next: seq<Config>, k: RouteKey)
    requires k in w.routes && NamedBy(StaleList(prev, next), k, w.routes[k])
    ensures Swept(w, prev, next, k)
  {
  }

  /** Every applicable link is in place. */
  ghost predicate AllInPlace(src: LinkView, links: Links, next: seq<Config>) {
    forall c | c in next && Applicable(c) :: LinkInPlace(src, links, c)
  }

  lemma InPlaceLosesNothing(src: LinkView, links: Links, next: seq<Config>)
    requires AllInPlace(src, links, next)
    ensures NoneLost(links, Named(next)) && Attainable(links, src, next)
  {
    hide Applicable, Matches, Show, Named, LostLater, Buildable;
    NamedFacts(next);
    forall i | 0 <= i < |Named(next)| && Applicable(Named(next)[i]) ensures !Rebuilt(links, Named(next)[i]) {
      assert Named(next)[i] in Named(next);
      assert LinkInPlace(src, links, Named(next)[i]);
    }
    forall k | LostLater(links, Named(next), k) ensures false { LostIsListed(links, Named(next), k); }
  }

  /** A second pass over a converged state changes no link and no route. */
  lemma ConvergedIsStable(w: Wires, src: LinkView, prev: seq<Config>, next: seq<Config>)
    requires DistinctLinks(next) && Converged(src, w, prev, next)
    ensures Reconciled(w, src, prev, next) == w
  {
    hide LinkInPlace, Reconciled, NamedBy, StaleList, Named, ListedVia, Applicable, Swept, RemoveList, Matches, Show,
         LostLater;
    var r := Reconciled(w, src, prev, next);
    NamedFacts(next);
    InPlaceLosesNothing(src, w.links, next);
    forall n ensures n in r.links <==> n in w.links
      ensures n in r.links ==> r.links[n] == w.links[n]
    {
      StableLink(w, src, prev, next, n);
    }
    assert r.links == w.links;
    forall k ensures k in r.routes <==> k in w.routes
      ensures k in r.routes ==> r.routes[k] == w.routes[k]
    {
      RoutesConverge(w, src, prev, next, k);
      if k in w.routes && ListedVia(Named(next), k).None? { NothingSwept(w, src, prev, next, k); }
    }
    assert r.routes == w.routes;
  }

  lemma StableLink(w: Wires, src: LinkView, prev: seq<Config>, next: seq<Config>, n: string)
    requires DistinctLinks(next) && Converged(src, w, prev, next)
    ensures var r := Reconciled(w, src, prev, next);
            (n in r.links <==> n in w.links) && (n in r.links ==> r.links[n] == w.links[n])
  {
    hide Applicable, Matches, Show, AddArgs, LinkMTU, RemoveAll, EnsureAll, Configured, DeleteSpecs, StaleList,
         Named, RemoveList, Names, NamedBy, ListedVia;
    var removed := RemoveAll(w, RemoveList(prev, next));
    var start := Wires(removed.links, DeleteSpecs(removed.routes, StaleList(prev, next)));
    NamedFacts(next);
    RemoveAllGives(w, RemoveList(prev, next), n);
    EnsureAllGives(start, src, Named(next), n);
    if i :| 0 <= i < |Named(next)| && Applicable(Named(next)[i]) && Named(next)[i].name == n {
      var c := Named(next)[i];
      assert c in Named(next);
      assert LinkInPlace(src, w.links, c);
      ConfiguredAgain(src, w.links, c);
    }
  }

  lemma NothingSwept(w: Wires, src: LinkView, prev: seq<Config>, next: seq<Config>, k: RouteKey)
    requires Converged(src, w, prev, next) && k in w.routes && ListedVia(Named(next), k).None?
    ensures !Swept(w, prev, next, k)
  {
    hide Applicable, Matches, Show, LinkMTU, StaleList, Named, RemoveList, NamedBy, ListedVia, UsesDevice;
    NamedFacts(next);
    forall i | 0 <= i < |Named(next)| && Applicable(Named(next)[i]) ensures !Rebuilt(w.links, Named(next)[i]) {
      assert Named(next)[i] in Named(next);
      assert LinkInPlace(src, w.links, Named(next)[i]);
    }
  }

  /** Once the links are as the new configuration wants them, a pass changes nothing exactly when the routes are
      settled too. */
  lemma InPlacePassIff(w: Wires, src: LinkView, prev: seq<Config>, next: seq<Config>)
    requires DistinctLinks(next) && AllInPlace(src, w.links, next)
    requires forall n | n in RemoveList(prev, next) :: n !in w.links
    ensures Reconciled(w, src, prev, next) == w <==> RoutesSettled(w.routes, prev, next)
  {
    hide Reconciled, LinkInPlace, Applicable, RoutesSettled, NoneLost, Attainable, RemoveList, Named;
    InPlaceLosesNothing(src, w.links, next);
    PassConvergesIff(w, src, prev, next);
    if RoutesSettled(w.routes, prev, next) {
      ConvergedIsStable(w, src, prev, next);
    }
  }

  /** After one pass the links are. */
  lemma PassPutsInPlace(w: Wires, src: LinkView, prev: seq<Config>, next: seq<Config>)
    requires DistinctLinks(next) && Attainable(w.links, src, next)
    ensures var r := Reconciled(w, src, prev, next);
            AllInPlace(src, r.links, next) && forall n | n in RemoveList(prev, next) :: n !in r.links
    ensures RoutesSettled(Reconciled(w, src, prev, next).routes, prev, next) <==> NoneLost(w.links, Named(next))
  {
    hide Reconciled, LinkInPlace, Applicable, RoutesSettled, NoneLost, Reusable, Buildable, RemoveList, Named, Names;
    LinksConverge(w, src, prev, next);
    forall n { RemoveListMembers(prev, next, n); }
    PassConvergesIff(w, src, prev, next);
  }

  /** Whatever the first pass lost, the second one puts back: two passes converge, and a third one changes
      nothing. */
  lemma TwoPassesConverge(w: Wires, src: LinkView, prev: seq<Config>, next: seq<Config>)
    requires DistinctLinks(next) && Attainable(w.links, src, next)
    ensures var twice := Reconciled(Reconciled(w, src, prev, next), src, prev, next);
            Converged(src, twice, prev, next) && Reconciled(twice, src, prev, next) == twice
  {
    hide Reconciled, Converged, Reusable, Buildable, Applicable, NoneLost, Names, LinkInPlace, Named;
    var once := Reconciled(w, src, prev, next);
    LinksConverge(w, src, prev, next);
    InPlaceLosesNothing(src, once.links, next);
    PassConvergesIff(once, src, prev, next);
    ConvergedIsStable(Reconciled(once, src, prev, next), src, prev, next);
  }

  /** The second pass of a sync, made with the same old configuration, leaves links and routes as the
      first pass left them, exactly when the first pass lost no listed route to a rebuilt link. */
  lemma SecondPassChangesNothingIff(w: Wires, src: LinkView, prev: seq<Config>, next: seq<Config>)
    requires DistinctLinks(next) && Attainable(w.links, src, next)
    ensures var r := Reconciled(w, src, prev, next);
            Reconciled(r, src, prev, next) == r <==> NoneLost(w.links, Named(next))
  {
    hide Reconciled, Converged, Attainable, NoneLost, Named;
    PassConvergesIff(w, src, prev, next);
    TwoPassesConverge(w, src, prev, next);
    if NoneLost(w.links, Named(next)) {
      ConvergedIsStable(Reconciled(w, src, prev, next), src, prev, next);
    }
  }

  lemma {:induction false} NothingRemoved(prev: seq<Config>, next: seq<Config>)
    requires forall c | c in prev :: Names(next, c.name)
    ensures RemoveList(prev, next) == []
  {
    hide Names;
    if prev != [] {
      assert prev[|prev| - 1] in prev;
      NothingRemoved(prev[..|prev| - 1], next);
    }
  }

  lemma {:induction false} NothingDropped(routes: seq<string>, keep: seq<string>)
    requires forall r | r in routes :: r in keep
    ensures DroppedRoutes(routes, keep) == []
  {
    if routes != [] {
      assert routes[|routes| - 1] in routes;
      NothingDropped(routes[..|routes| - 1], keep);
    }
  }

  lemma {:induction false} WantedOfDistinct(next: seq<Config>, i: nat)
    requires DistinctLinks(next) && i < |next| && next[i].name != ""
    ensures WantedRoutes(next, next[i].name) == next[i].routes
  {
    if i < |next| - 1 {
      WantedOfDistinct(next[..|next| - 1], i);
    }
  }

  lemma {:induction false} NothingStale(prev: seq<Config>, next: seq<Config>)
    requires DistinctLinks(next) && AllNamed(next) && forall c | c in prev :: c in next
    ensures StaleList(prev, next) == []
  {
    if prev != [] {
      var c := prev[|prev| - 1];
      assert c in prev;
      NothingStale(prev[..|prev| - 1], next);
      var i :| 0 <= i < |next| && next[i] == c;
      WantedOfDistinct(next, i);
      NothingDropped(c.routes, c.routes);
    }
  }

  // What an unchanged configuration disturbs.

  /** Every spec names a route that is there, and leaves that way. */
  ghost predicate SpecsHold(routes: Routes, specs: seq<string>) {
    forall j | 0 <= j < |specs| :: SpecHolds(routes, Fields(specs[j]))
  }

  predicate SpecHolds(routes: Routes, f: Argv) {
    RouteKeyOf(f) in routes && routes[RouteKeyOf(f)] == RouteVia(f)
  }

  lemma {:induction false} SpecOverwritesIff(routes: Routes, specs: seq<string>)
    requires forall j | 0 <= j < |specs| :: RouteKeyOf(Fields(specs[j])) in routes
    ensures SpecOverwrites(routes, specs) == 0 <==> SpecsHold(routes, specs)
    ensures SpecsHold(routes, specs) ==> ReplaceSpecs(routes, specs) == routes
  {
    hide Fields, RouteKeyOf, RouteVia;
    if specs != [] {
      var m := |specs| - 1;
      var init := specs[..m];
      assert forall j | 0 <= j < m :: init[j] == specs[j];
      SpecOverwritesIff(routes, init);
      if SpecsHold(routes, init) && SpecHolds(routes, Fields(specs[m])) {
        var f := Fields(specs[m]);
        assert routes[RouteKeyOf(f) := RouteVia(f)] == routes;
      }
      if SpecsHold(routes, specs) { assert SpecHolds(routes, Fields(specs[m])); }
    }
  }

  /** Ensuring this link finds its address listed and its routes as it lists them. */
  ghost predicate Calm(w: Wires, src: LinkView, c: Config) {
    c.name in w.links && src.Shows(w.links[c.name].addrs, c.local) && SpecsHold(w.routes, c.routes)
  }

  ghost predicate Settled(w: Wires, src: LinkView, c: Config) {
    LinkInPlace(src, w.links, c) && forall j | 0 <= j < |c.routes| :: RouteKeyOf(Fields(c.routes[j])) in w.routes
  }

  lemma EnsureSettled(w: Wires, src: LinkView, c: Config)
    requires Applicable(c) && Settled(w, src, c)
    ensures EnsureDisturbs(w.links, w.routes, src, c) == 0 <==> Calm(w, src, c)
    ensures Calm(w, src, c) ==> EnsureOne(w, src, c) == w
  {
    hide Applicable, Matches, Show, LinkMTU, Fields, RouteKeyOf, RouteVia, SpecsHold;
    SpecOverwritesIff(w.routes, c.routes);
    ConfiguredAgain(src, w.links, c);
    assert w.links[c.name := w.links[c.name]] == w.links;
  }

  lemma {:induction false} DisturbsIff(w: Wires, src: LinkView, cfgs: seq<Config>)
    requires forall c | c in cfgs && Applicable(c) :: Settled(w, src, c)
    ensures Disturbs(w, src, cfgs) == 0 <==> forall c | c in cfgs && Applicable(c) :: Calm(w, src, c)
    ensures Disturbs(w, src, cfgs) == 0 ==> EnsureAll(w, src, cfgs) == w
  {
    hide Applicable, LinkInPlace, Calm, EnsureOne, EnsureDisturbs;
    if cfgs != [] {
      var init, last := cfgs[..|cfgs| - 1], cfgs[|cfgs| - 1];
      assert cfgs == init + [last];
      DisturbsIff(w, src, init);
      if Applicable(last) {
        EnsureSettled(w, src, last);
      } else {
        EnsureNothing(w, src, last);
      }
    }
  }

  lemma EnsureNothing(w: Wires, src: LinkView, c: Config)
    requires !Applicable(c)
    ensures EnsureOne(w, src, c) == w && EnsureDisturbs(w.links, w.routes, src, c) == 0
  {
  }

  /** Every route an applicable link lists leaves the way the last lister of its key says. */
  ghost predicate OneWay(cfgs: seq<Config>) {
    forall c | c in cfgs && Applicable(c) :: SpecsAgree(cfgs, c.routes)
  }

  ghost predicate SpecsAgree(cfgs: seq<Config>, specs: seq<string>) {
    forall j | 0 <= j < |specs| :: ListedVia(cfgs, RouteKeyOf(Fields(specs[j]))) == Some(RouteVia(Fields(specs[j])))
  }

  lemma {:induction false} SpecIsListed(cfgs: seq<Config>, c: Config, j: nat)
    requires c in cfgs && Applicable(c) && j < |c.routes|
    ensures ListedVia(cfgs, RouteKeyOf(Fields(c.routes[j]))).Some?
  {
    hide Applicable, Fields, RouteKeyOf, RouteVia;
    var init, last := cfgs[..|cfgs| - 1], cfgs[|cfgs| - 1];
    assert cfgs == init + [last];
    if c == last { SpecOfLink(c.routes, j); } else { SpecIsListed(init, c, j); }
  }

  lemma {:induction false} SpecOfLink(specs: seq<string>, j: nat)
    requires j < |specs|
    ensures SpecVia(specs, RouteKeyOf(Fields(specs[j]))).Some?
  {
    hide Fields, RouteKeyOf, RouteVia;
    if j < |specs| - 1 { SpecOfLink(specs[..|specs| - 1], j); }
  }

  lemma ConvergedSettles(w: Wires, src: LinkView, prev: seq<Config>, next: seq<Config>, c: Config)
    requires Converged(src, w, prev, next) && c in Named(next) && Applicable(c)
    ensures Settled(w, src, c)
    ensures SpecsHold(w.routes, c.routes) <==> SpecsAgree(Named(next), c.routes)
  {
    hide Applicable, LinkInPlace, Fields, RouteKeyOf, RouteVia, ListedVia, Named, RemoveList, StaleList;
    NamedFacts(next);
    forall j | 0 <= j < |c.routes|
      ensures RouteKeyOf(Fields(c.routes[j])) in w.routes
      ensures SpecHolds(w.routes, Fields(c.routes[j]))
              <==> ListedVia(Named(next), RouteKeyOf(Fields(c.routes[j]))) == Some(RouteVia(Fields(c.routes[j])))
    {
      SpecIsListed(Named(next), c, j);
    }
  }

  /** The listing of every applicable link holds its address. */
  ghost predicate AddressesListed(links: Links, src: LinkView, cfgs: seq<Config>) {
    forall c | c in cfgs && Applicable(c) && c.name in links :: src.Shows(links[c.name].addrs, c.local)
  }

  /** Reconciling an unchanged configuration on a converged host changes no link and no route. It
      deletes, flushes and overwrites nothing exactly when every address is listed as it is written and
      no two specs send one destination different ways; otherwise every pass flushes that address, or
      flips that route, again. */
  lemma UnchangedIsQuietIff(w: Wires, src: LinkView, rules: multiset<Rule>, prev: seq<Config>, next: seq<Config>)
    requires DistinctLinks(next) && AllNamed(next) && Converged(src, w, prev, next)
    requires forall r | Managed(next, r) :: rules[r] <= 1
    ensures NothingToRemove(rules, next, next) && Reconciled(w, src, next, next) == w
    ensures Disturbs(w, src, Named(next)) == 0 <==> AddressesListed(w.links, src, Named(next)) && OneWay(Named(next))
  {
    hide Reconciled, Applicable, Managed, ListedVia, RemoveList, StaleList, Names, Named, Disturbs, SpecsHold,
         SpecsAgree, Matches, Show, LinkMTU;
    forall c | c in next ensures Names(next, c.name) { NameListed(next, c); }
    NothingRemoved(next, next);
    NothingStale(next, next);
    assert Converged(src, w, next, next);
    ConvergedIsStable(w, src, next, next);
    forall c | c in Named(next) && Applicable(c)
      ensures Settled(w, src, c) && (SpecsHold(w.routes, c.routes) <==> SpecsAgree(Named(next), c.routes))
    {
      ConvergedSettles(w, src, prev, next, c);
    }
    DisturbsIff(w, src, Named(next));
  }

  /** When an address is listed after a pass: it was before, on a link that stayed, or the kernel lists it
      the way it is written. So an address written otherwise is flushed and added again by every pass. */
  lemma AddressListedIff(w: Wires, src: LinkView, prev: seq<Config>, next: seq<Config>, c: Config)
    requires DistinctLinks(next) && c in next && Applicable(c)
    ensures var r := Reconciled(w, src, prev, next);
            && c.name in r.links
            && (src.Shows(r.links[c.name].addrs, c.local) <==>
                src.AsWritten(c.local) || (Reusable(w.links, c) && src.Shows(w.links[c.name].addrs, c.local)))
  {
    hide Matches, Show, AddArgs, LinkMTU, RemoveAll, EnsureAll, DeleteSpecs, StaleList, Named, RemoveList, Names;
    var removed := RemoveAll(w, RemoveList(prev, next));
    NamedFacts(next);
    NameListed(next, c);
    RemoveListMembers(prev, next, c.name);
    RemoveAllGives(w, RemoveList(prev, next), c.name);
    var i :| 0 <= i < |Named(next)| && Named(next)[i] == c;
    EnsureAllGives(Wires(removed.links, DeleteSpecs(removed.routes, StaleList(prev, next))), src, Named(next), c.name);
  }

  // ---- stale routes -----------------------------------------------------------------------------

  lemma {:induction false} DroppedMembers(routes: seq<string>, keep: seq<string>, spec: string)
    ensures spec in DroppedRoutes(routes, keep) <==> spec in routes && spec !in keep
  {
    if routes != [] {
      assert routes == routes[..|routes| - 1] + [routes[|routes| - 1]];
      DroppedMembers(routes[..|routes| - 1], keep, spec);
    }
  }

  /** A spec is stale exactly when some old link that survives lists it and the new configuration of that
      name does not. */
  lemma {:induction false} StaleListMembers(prev: seq<Config>, next: seq<Config>, spec: string)
    requires DistinctLinks(next) && AllNamed(next)
    ensures spec in StaleList(prev, next) <==>
            exists c, d :: c in prev && d in next && d.name == c.name && spec in c.routes && spec !in d.routes
  {
    if prev != [] {
      var init, last := prev[..|prev| - 1], prev[|prev| - 1];
      assert prev == init + [last];
      StaleListMembers(init, next, spec);
      DroppedMembers(last.routes, WantedRoutes(next, last.name), spec);
      if Names(next, last.name) {
        var i :| 0 <= i < |next| && next[i].name == last.name;
        WantedOfDistinct(next, i);
        assert next[i] in next;
      }
      forall d | d in next && d.name == last.name ensures WantedRoutes(next, last.name) == d.routes
          && Names(next, last.name) {
        var i :| 0 <= i < |next| && next[i] == d;
        WantedOfDistinct(next, i);
      }
    }
  }

  /** A spec that a surviving link just dropped is stale. */
  lemma {:induction false} DroppedSpecIsStale(prev: seq<Config>, next: seq<Config>, c: Config, d: Config, spec: string)
    requires DistinctLinks(next) && c in prev && d in next && c.name == d.name != ""
    requires spec in c.routes && spec !in d.routes
    ensures spec in StaleList(prev, next)
  {
    var init, last := prev[..|prev| - 1], prev[|prev| - 1];
    assert prev == init + [last];
    if c == last {
      var i :| 0 <= i < |next| && next[i] == d;
      WantedOfDistinct(next, i);
      DroppedMembers(c.routes, d.routes, spec);
    } else {
      DroppedSpecIsStale(init, next, c, d, spec);
    }
  }

  // ---- firewall rules ---------------------------------------------------------------------------

  lemma ProtocolOrLink(c: Config, r: Rule)
    requires r in AllowedRules(c)
    ensures r in ProtocolRules() || r in LinkRules(c.name)
  {
  }

  /** Every rule an applicable link needs is looked after by the cleanup. */
  lemma NeededIsManaged(next: seq<Config>, r: Rule)
    requires Needed(next, r)
    ensures next != [] && Managed(next, r)
  {
    hide Applicable;
    var i :| 0 <= i < |next| && Applicable(next[i]) && r in AllowedRules(next[i]);
    ProtocolOrLink(next[i], r);
    if r in LinkRules(next[i].name) { LinkRuleIsManaged(next, i, r); }
  }

  lemma LinkRuleIsManaged(next: seq<Config>, i: nat, r: Rule)
    requires i < |next| && r in LinkRules(next[i].name)
    ensures Managed(next, r)
  {
    var n := next[i].name;
    assert n in LinkNames(next);
    assert ["-i", n] + ACCEPT in KeptInput(next) && ["-i", n] + ACCEPT in KeptForward(next)
        && ["-o", n] + ACCEPT in KeptForward(next);
  }

  /** After a pass each rule of an applicable link has exactly one copy, however many there were. */
  lemma NeededHasOneCopy(prev: seq<Config>, next: seq<Config>, c: Config, r: Rule, copies: nat)
    requires c in next && Applicable(c) && r in AllowedRules(c)
    ensures CopiesAfter(prev, next, r, copies) == 1
  {
    hide Applicable, AllowedRules, Managed, Forgotten, RemoveList;
    var i :| 0 <= i < |next| && next[i] == c;
    assert Needed(next, r);
    NeededIsManaged(next, r);
  }

  /** A managed rule names a link of the configuration or a tunnel protocol. */
  lemma ManagedNamesLink(cfgs: seq<Config>, r: Rule)
    requires Managed(cfgs, r)
    ensures r in ProtocolRules() || exists i | 0 <= i < |cfgs| :: r in LinkRules(cfgs[i].name)
  {
    if KeptRule(r, "INPUT", KeptInput(cfgs)) {
      if n :| n in LinkNames(cfgs) && r.args == ["-i", n] + ACCEPT {
        var i :| 0 <= i < |cfgs| && cfgs[i].name == n && n != "";
        assert r == Accept("INPUT", ["-i", n]);
      } else {
        assert r == Accept("INPUT", ["-p", "4"]) || r == Accept("INPUT", ["-p", "47"]);
      }
    } else {
      var n :| n in LinkNames(cfgs) && (r.args == ["-i", n] + ACCEPT || r.args == ["-o", n] + ACCEPT);
      var i :| 0 <= i < |cfgs| && cfgs[i].name == n && n != "";
      assert r == Accept("FORWARD", ["-i", n]) || r == Accept("FORWARD", ["-o", n]);
    }
  }

  /** A rule of one link names no other link, and the protocol rules name none. */
  lemma LinkRulesNameOne(m: string, n: string, r: Rule)
    requires r in LinkRules(m)
    ensures r !in ProtocolRules() && (r in LinkRules(n) ==> m == n)
  {
    assert r.args[0] in {"-i", "-o"} && r.args[1] == m;
    assert "-p"[1] == 'p' && "-i"[1] == 'i' && "-o"[1] == 'o';
    assert forall p | p in ProtocolRules() :: p.args[0] == "-p";
    assert r in LinkRules(n) ==> r.args[1] == n;
  }

  lemma {:induction false} ForgottenMembers(names: seq<string>, r: Rule)
    ensures Forgotten(names, r) > 0 <==> exists n :: n in names && r in LinkRules(n)
  {
    hide LinkRules;
    if names != [] {
      var init, last := names[..|names| - 1], names[|names| - 1];
      assert names == init + [last];
      ForgottenMembers(init, r);
    }
  }

  /** r names neither a tunnel protocol nor a link of either configuration. */
  ghost predicate Foreign(prev: seq<Config>, next: seq<Config>, r: Rule) {
    r !in ProtocolRules() && forall c | c in prev || c in next :: r !in LinkRules(c.name)
  }

  lemma ForeignRuleUntouched(prev: seq<Config>, next: seq<Config>, r: Rule, copies: nat)
    requires Foreign(prev, next, r)
    ensures CopiesAfter(prev, next, r, copies) == copies
  {
    hide LinkRules, ProtocolRules, RemoveList, Forgotten, Applicable, AllowedRules, Managed;
    assert forall i | 0 <= i < |prev| :: prev[i] in prev;
    assert forall i | 0 <= i < |next| :: next[i] in next;
    ForgottenMembers(RemoveList(prev, next), r);
    forall n { RemoveListMembers(prev, next, n); }
    if Managed(next, r) { ManagedNamesLink(next, r); }
    forall c | r in AllowedRules(c) { ProtocolOrLink(c, r); }
  }

  /** Rules of a removed link are neither needed nor looked after. */
  lemma RemovedIsUnmanaged(prev: seq<Config>, next: seq<Config>, r: Rule)
    requires Forgotten(RemoveList(prev, next), r) > 0
    ensures !Needed(next, r) && !Managed(next, r)
  {
    hide LinkRules, ProtocolRules, RemoveList, Forgotten, Applicable, AllowedRules, Managed;
    ForgottenMembers(RemoveList(prev, next), r);
    var n :| n in RemoveList(prev, next) && r in LinkRules(n);
    RemoveListMembers(prev, next, n);
    forall m { LinkRulesNameOne(n, m, r); }
    if Managed(next, r) {
      ManagedNamesLink(next, r);
      var i :| 0 <= i < |next| && r in LinkRules(next[i].name);
    }
    if Needed(next, r) { NeededIsManaged(next, r); }
  }

  /** A rule of a removed link loses up to eight copies for each time the old configuration lists it. */
  lemma RemovedRuleOutcome(prev: seq<Config>, next: seq<Config>, r: Rule, copies: nat)
    requires Forgotten(RemoveList(prev, next), r) > 0
    ensures CopiesAfter(prev, next, r, copies) == Monus(copies, 8 * Forgotten(RemoveList(prev, next), r))
    ensures copies <= 8 ==> CopiesAfter(prev, next, r, copies) == 0
  {
    hide Applicable, AllowedRules, Managed, Needed, RemoveList, Forgotten;
    RemovedIsUnmanaged(prev, next, r);
  }

  /** The second pass of a sync leaves a rule as the first pass left it exactly when no removed link
      names the rule or the first pass could delete all of its copies. */
  lemma SecondPassRulesIff(prev: seq<Config>, next: seq<Config>, r: Rule, copies: nat)
    ensures var once := CopiesAfter(prev, next, r, copies); var m := Forgotten(RemoveList(prev, next), r);
            CopiesAfter(prev, next, r, once) == once <==> m == 0 || copies <= FORGET * m
  {
    hide Applicable, AllowedRules, Managed, Needed, RemoveList, Forgotten;
    if Forgotten(RemoveList(prev, next), r) > 0 {
      RemovedIsUnmanaged(prev, next, r);
    }
  }

  /** After a pass no managed rule has a second copy: what UnchangedIsQuietIff asks for, and why a later
      removal finds at most one copy to delete. */
  lemma ManagedHasAtMostOne(prev: seq<Config>, next: seq<Config>, r: Rule, copies: nat)
    requires next != [] && Managed(next, r)
    ensures CopiesAfter(prev, next, r, copies) <= 1
  {
    hide Applicable, AllowedRules, Managed, Needed, RemoveList, Forgotten;
  }
}
