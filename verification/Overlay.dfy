/** overlay/overlay.go: reconciling the overlay links of a node. */
module Overlay {
  import opened Text
  import opened Host
  import opened Counts
  import opened OverlayLink
  import opened OverlayFirewall

  type Routes = map<RouteKey, Argv>
  type Links = map<string, Link>

  // ---- one link ---------------------------------------------------------------------------------

  predicate Applicable(c: Config) {
    c.name != "" && TrimSpace(c.local) != "" && (Kind(c) == "vxlan" ==> c.vni >= 1)
  }

  function Overhead(c: Config): int {
    if Kind(c) == "ipip" then 20 else if Kind(c) == "gre" then 24 else 50
  }

  function LinkMTU(c: Config): nat {
    if c.mtu > 0 then c.mtu else if c.tunnelMTU > Overhead(c) then c.tunnelMTU - Overhead(c) else 0
  }

  /** The existing link already is what c asks for. */
  predicate Reusable(links: Links, c: Config) {
    c.name in links && Matches(Show(links[c.name].argv, links[c.name].source), c)
  }

  function Fresh(src: LinkView, c: Config): Link {
    Link(AddArgs(c), src.sourceFor(AddArgs(c)), {}, false, 0)
  }

  /** The existing link is not what c asks for: it is deleted and made again. */
  predicate Rebuilt(links: Links, c: Config) { c.name in links && !Reusable(links, c) }

  function Built(links: Links, src: LinkView, c: Config): Link {
    if Reusable(links, c) then links[c.name] else Fresh(src, c)
  }

  /** Addresses are only touched when the listing does not hold the wanted one as it is written. */
  function Configured(src: LinkView, l: Link, c: Config): Link {
    l.(up := true, mtu := if LinkMTU(c) > 0 then LinkMTU(c) else l.mtu,
       addrs := if src.Shows(l.addrs, c.local) then l.addrs else {c.local})
  }

  function EnsuredLinks(links: Links, src: LinkView, c: Config): Links {
    links[c.name := Configured(src, Built(links, src, c), c)]
  }

  function ReplaceSpecs(routes: Routes, specs: seq<string>): Routes {
    if specs == [] then routes
    else
      var f := Fields(specs[|specs| - 1]);
      ReplaceSpecs(routes, specs[..|specs| - 1])[RouteKeyOf(f) := RouteVia(f)]
  }

  /** Deleting a link takes the routes through it along. */
  function FlushedRoutes(links: Links, routes: Routes, c: Config): Routes {
    if Rebuilt(links, c) then FlushDevice(routes, c.name) else routes
  }

  function EnsuredRoutes(links: Links, routes: Routes, c: Config): Routes {
    ReplaceSpecs(FlushedRoutes(links, routes, c), c.routes)
  }

  // What ensuring one link deletes, flushes or overwrites.

  function SpecOverwrites(routes: Routes, specs: seq<string>): nat {
    if specs == [] then 0
    else
      var init, f := specs[..|specs| - 1], Fields(specs[|specs| - 1]);
      SpecOverwrites(routes, init) + Overwrites(ReplaceSpecs(routes, init), RouteKeyOf(f), RouteVia(f))
  }

  function AddressFlushes(src: LinkView, l: Link, c: Config): nat {
    if !src.Shows(l.addrs, c.local) && l.addrs != {} then 1 else 0
  }

  function EnsureDisturbs(links: Links, routes: Routes, src: LinkView, c: Config): nat {
    if !Applicable(c) then 0
    else
      (if Rebuilt(links, c) then 1 else 0) + AddressFlushes(src, Built(links, src, c), c)
      + SpecOverwrites(FlushedRoutes(links, routes, c), c.routes)
  }

  function AllowedRules(c: Config): seq<Rule> { ProtocolRules() + LinkRules(c.name) }

  /** Installs the routes of a link, one after the other. */
  method InstallRoutes(h: Kernel, specs: seq<string>)
    modifies h`routes, h`disruptions
    ensures h.routes == ReplaceSpecs(old(h.routes), specs)
    ensures h.disruptions == old(h.disruptions) + SpecOverwrites(old(h.routes), specs)
  {
    hide RouteKeyOf, RouteVia, Fields, Overwrites;
    for i := 0 to |specs|
      invariant h.routes == ReplaceSpecs(old(h.routes), specs[..i])
      invariant h.disruptions == old(h.disruptions) + SpecOverwrites(old(h.routes), specs[..i])
    {
      assert specs[..i + 1][..i] == specs[..i];
      h.RouteReplace(Fields(specs[i]));
    }
    assert specs[..|specs|] == specs;
  }

  /** First half of Ensure: the link exists and was made from c, or matches it. */
  method BuildLink(h: Kernel, c: Config)
    modifies h`links, h`routes, h`disruptions
    ensures h.links == old(h.links)[c.name := Built(old(h.links), h.view, c)]
    ensures h.routes == FlushedRoutes(old(h.links), old(h.routes), c)
    ensures h.disruptions == old(h.disruptions) + if Rebuilt(old(h.links), c) then 1 else 0
  {
    hide Show, Matches, AddArgs, TrimSpace, FlushDevice;
    var show := if c.name in h.links then Show(h.links[c.name].argv, h.links[c.name].source) else "";
    if c.name in h.links { VisibleShow(h.links[c.name].argv, h.links[c.name].source); }
    NothingShown(c);
    if !Matches(show, c) {
      if TrimSpace(show) != "" {
        h.LinkDelete(c.name);
      }
      h.LinkCreate(c.name, AddArgs(c));
      assert h.links == old(h.links)[c.name := Fresh(h.view, c)];
    }
  }

  lemma NothingShown(c: Config)
    ensures TrimSpace("") == "" && !Matches("", c)
  {
  }

  /** Second half of Ensure: the address and the MTU. */
  method ConfigureLink(h: Kernel, c: Config)
    requires c.name in h.links
    modifies h`links, h`disruptions
    ensures h.links == old(h.links)[c.name := Configured(h.view, old(h.links)[c.name], c)]
    ensures h.disruptions == old(h.disruptions) + AddressFlushes(h.view, old(h.links)[c.name], c)
  {
    h.LinkUp(c.name);
    var mtu := LinkMTU(c);
    if mtu > 0 {
      h.LinkMtu(c.name, mtu);
    }
    if !h.view.Shows(h.links[c.name].addrs, c.local) {
      h.AddrFlush(c.name);
      h.AddrAdd(c.name, c.local);
      assert h.links[c.name].addrs == {c.local};
    }
  }

  /** Creates or updates one link, opens the firewall for it and installs its routes. */
  method Ensure(h: Kernel, c: Config)
    modifies h`links, h`routes, h`rules, h`disruptions
    ensures !Applicable(c) ==>
              h.links == old(h.links) && h.routes == old(h.routes) && h.rules == old(h.rules)
              && h.disruptions == old(h.disruptions)
    ensures Applicable(c) ==>
              && h.links == EnsuredLinks(old(h.links), h.view, c)
              && h.routes == EnsuredRoutes(old(h.links), old(h.routes), c)
              && (forall r :: h.rules[r] == Step(old(h.rules)[r], Touch(0, r in AllowedRules(c))))
    ensures h.disruptions == old(h.disruptions) + EnsureDisturbs(old(h.links), old(h.routes), h.view, c)
  {
    hide Matches, Show, AddArgs, LinkMTU, AllowedRules, AddressFlushes, FlushDevice;
    if !Applicable(c) { return; }
    BuildLink(h, c);
    ConfigureLink(h, c);
    Allow(h, AllowedRules(c));
    InstallRoutes(h, c.routes);
  }

  method Remove(h: Kernel, name: string)
    modifies h`links, h`routes, h`rules, h`disruptions
    ensures h.links == if name != "" && name in old(h.links) then old(h.links) - {name} else old(h.links)
    ensures h.routes == if name != "" && name in old(h.links) then FlushDevice(old(h.routes), name) else old(h.routes)
    ensures forall r :: h.rules[r] == Monus(old(h.rules)[r], if r in LinkRules(name) then FORGET else 0)
  {
    if name == "" { return; }
    Forget(h, name);
    h.LinkDelete(name);
  }

  // ---- planning ---------------------------------------------------------------------------------

  /** Some configuration of the list has this name. */
  predicate Names(cfgs: seq<Config>, name: string) {
    exists i | 0 <= i < |cfgs| :: cfgs[i].name == name
  }

  /** The named links of prev that next no longer lists, in order. */
  function RemoveList(prev: seq<Config>, next: seq<Config>): seq<string> {
    if prev == [] then [] else
      var n := prev[|prev| - 1].name;
      RemoveList(prev[..|prev| - 1], next) + if n != "" && !Names(next, n) then [n] else []
  }

  function Named(cfgs: seq<Config>): seq<Config> {
    if cfgs == [] then [] else
      Named(cfgs[..|cfgs| - 1]) + if cfgs[|cfgs| - 1].name != "" then [cfgs[|cfgs| - 1]] else []
  }

  method Plan(prev: seq<Config>, next: seq<Config>) returns (remove: seq<string>, ensure: seq<Config>)
    ensures remove == RemoveList(prev, next) && ensure == Named(next)
  {
    var wanted: set<string> := {};
    for i := 0 to |next|
      invariant forall n :: n in wanted <==> n != "" && exists j | 0 <= j < i :: next[j].name == n
    {
      if next[i].name != "" { wanted := wanted + {next[i].name}; }
    }
    remove := [];
    for i := 0 to |prev|
      invariant remove == RemoveList(prev[..i], next)
    {
      assert prev[..i + 1][..i] == prev[..i];
      if prev[i].name == "" { continue; }
      if prev[i].name !in wanted { remove := remove + [prev[i].name]; }
    }
    assert prev[..|prev|] == prev;
    ensure := [];
    for i := 0 to |next|
      invariant ensure == Named(next[..i])
    {
      assert next[..i + 1][..i] == next[..i];
      if next[i].name != "" { ensure := ensure + [next[i]]; }
    }
    assert next[..|next|] == next;
  }

  /** The routes the last configuration of this name lists. */
  function WantedRoutes(next: seq<Config>, name: string): seq<string> {
    if next == [] then []
    else if next[|next| - 1].name == name then next[|next| - 1].routes
    else WantedRoutes(next[..|next| - 1], name)
  }

  function DroppedRoutes(routes: seq<string>, keep: seq<string>): seq<string> {
    if routes == [] then [] else
      DroppedRoutes(routes[..|routes| - 1], keep) + if routes[|routes| - 1] in keep then [] else [routes[|routes| - 1]]
  }

  /** Routes of surviving links that are no longer wanted. */
  function StaleList(prev: seq<Config>, next: seq<Config>): seq<string> {
    if prev == [] then [] else
      var c := prev[|prev| - 1];
      StaleList(prev[..|prev| - 1], next)
      + if Names(next, c.name) then DroppedRoutes(c.routes, WantedRoutes(next, c.name)) else []
  }

  method StaleRoutes(prev: seq<Config>, next: seq<Config>) returns (out: seq<string>)
    ensures out == StaleList(prev, next)
  {
    var wanted: map<string, seq<string>> := map[];
    for i := 0 to |next|
      invariant forall n :: n in wanted <==> exists j | 0 <= j < i :: next[j].name == n
      invariant forall n | n in wanted :: wanted[n] == WantedRoutes(next[..i], n)
    {
      assert next[..i + 1][..i] == next[..i];
      wanted := wanted[next[i].name := next[i].routes];
    }
    assert next[..|next|] == next;
    out := [];
    for i := 0 to |prev|
      invariant out == StaleList(prev[..i], next)
    {
      assert prev[..i + 1][..i] == prev[..i];
      var c := prev[i];
      if c.name !in wanted { continue; }
      ghost var before := out;
      for k := 0 to |c.routes|
        invariant out == before + DroppedRoutes(c.routes[..k], wanted[c.name])
      {
        assert c.routes[..k + 1][..k] == c.routes[..k];
        if c.routes[k] !in wanted[c.name] { out := out + [c.routes[k]]; }
      }
      assert c.routes[..|c.routes|] == c.routes;
    }
    assert prev[..|prev|] == prev;
  }

  // ---- the whole pass ---------------------------------------------------------------------------

  datatype Wires = Wires(links: Links, routes: Routes)

  function RemoveAll(w: Wires, names: seq<string>): Wires {
    if names == [] then w
    else
      var rest := RemoveAll(w, names[..|names| - 1]);
      var n := names[|names| - 1];
      if n in rest.links then Wires(rest.links - {n}, FlushDevice(rest.routes, n)) else rest
  }

  function DeleteSpecs(routes: Routes, specs: seq<string>): Routes {
    if specs == [] then routes
    else RoutesWithout(DeleteSpecs(routes, specs[..|specs| - 1]), Fields(specs[|specs| - 1]))
  }

  function EnsureOne(w: Wires, src: LinkView, c: Config): Wires {
    if Applicable(c) then Wires(EnsuredLinks(w.links, src, c), EnsuredRoutes(w.links, w.routes, c)) else w
  }

  function EnsureAll(w: Wires, src: LinkView, cfgs: seq<Config>): Wires {
    if cfgs == [] then w
    else EnsureOne(EnsureAll(w, src, cfgs[..|cfgs| - 1]), src, cfgs[|cfgs| - 1])
  }

  /** Links and routes after one pass: remove, delete stale routes, ensure. */
  function Reconciled(w: Wires, src: LinkView, prev: seq<Config>, next: seq<Config>): Wires {
    var removed := RemoveAll(w, RemoveList(prev, next));
    EnsureAll(Wires(removed.links, DeleteSpecs(removed.routes, StaleList(prev, next))), src, Named(next))
  }

  // The firewall rules, one rule at a time.

  /** How many removed links name rule r. */
  function Forgotten(names: seq<string>, r: Rule): nat {
    if names == [] then 0
    else Forgotten(names[..|names| - 1], r) + if r in LinkRules(names[|names| - 1]) then 1 else 0
  }

  /** Some applicable link needs rule r. */
  predicate Needed(cfgs: seq<Config>, r: Rule) {
    exists i | 0 <= i < |cfgs| :: Applicable(cfgs[i]) && r in AllowedRules(cfgs[i])
  }

  /** Rules the cleanup looks after: the protocol rules and those of every named link. */
  function KeptInput(cfgs: seq<Config>): set<Argv> {
    {["-p", "4"] + ACCEPT, ["-p", "47"] + ACCEPT} + (set n | n in LinkNames(cfgs) :: ["-i", n] + ACCEPT)
  }

  function KeptForward(cfgs: seq<Config>): set<Argv> {
    (set n | n in LinkNames(cfgs) :: ["-i", n] + ACCEPT) + (set n | n in LinkNames(cfgs) :: ["-o", n] + ACCEPT)
  }

  function LinkNames(cfgs: seq<Config>): set<string> {
    set i | 0 <= i < |cfgs| && cfgs[i].name != "" :: cfgs[i].name
  }

  ghost predicate Managed(cfgs: seq<Config>, r: Rule) {
    KeptRule(r, "INPUT", KeptInput(cfgs)) || KeptRule(r, "FORWARD", KeptForward(cfgs))
  }

  /** Copies of r after one pass. */
  ghost function CopiesAfter(prev: seq<Config>, next: seq<Config>, r: Rule, c: nat): nat {
    var left := Monus(c, FORGET * Forgotten(RemoveList(prev, next), r));
    var there := if Needed(next, r) then Max(1, left) else left;
    if next != [] && Managed(next, r) then AtMostOne(there) else there
  }

  ghost predicate PlainNames(cfgs: seq<Config>) {
    forall i | 0 <= i < |cfgs| && cfgs[i].name != "" :: PlainWord(cfgs[i].name)
  }

  lemma KeptArePlain(cfgs: seq<Config>)
    requires PlainNames(cfgs)
    ensures AllPlain(KeptInput(cfgs)) && AllPlain(KeptForward(cfgs))
  {
    FixedPlainWords();
    hide PlainWord;
  }

  lemma FixedPlainWords()
    ensures PlainWord("-p") && PlainWord("4") && PlainWord("47") && PlainWord("-i") && PlainWord("-o")
    ensures PlainWord("-j") && PlainWord("ACCEPT")
  {
  }

  /** One more spec, one more text. */
  lemma TextsPush(keep: set<Argv>, a: Argv)
    ensures Texts(keep + {a}) == Texts(keep) + {Join(a, " ")}
    ensures Texts({}) == {}
  {
    hide Join;
  }

  lemma TextsPushTwo(keep: set<Argv>, a: Argv, b: Argv)
    ensures Texts(keep + {a, b}) == Texts(keep) + {Join(a, " ")} + {Join(b, " ")}
  {
    hide Join, Texts;
    TextsPush(keep, a);
    TextsPush(keep + {a}, b);
    assert keep + {a, b} == keep + {a} + {b};
  }

  lemma KeptNothing()
    ensures Texts(KeptInput([])) == {Join(["-p", "4"] + ACCEPT, " "), Join(["-p", "47"] + ACCEPT, " ")}
    ensures Texts(KeptForward([])) == {}
  {
    hide Join;
    assert LinkNames([]) == {};
    assert KeptForward([]) == {};
  }

  method ManagedInputRules(links: seq<Config>) returns (out: set<string>)
    ensures out == Texts(KeptInput(links))
  {
    hide Join, Texts, KeptInput;
    out := {Join(["-p", "4"] + ACCEPT, " "), Join(["-p", "47"] + ACCEPT, " ")};
    KeptNothing();
    for i := 0 to |links|
      invariant out == Texts(KeptInput(links[..i]))
    {
      assert links[..i + 1] == links[..i] + [links[i]];
      KeptPush(links[..i], links[i]);
      TextsPush(KeptInput(links[..i]), ["-i", links[i].name] + ACCEPT);
      if links[i].name != "" { out := out + {Join(["-i", links[i].name] + ACCEPT, " ")}; }
    }
    assert links[..|links|] == links;
  }

  method ManagedForwardRules(links: seq<Config>) returns (out: set<string>)
    ensures out == Texts(KeptForward(links))
  {
    hide Join, Texts, KeptForward;
    out := {};
    KeptNothing();
    for i := 0 to |links|
      invariant out == Texts(KeptForward(links[..i]))
    {
      assert links[..i + 1] == links[..i] + [links[i]];
      KeptPush(links[..i], links[i]);
      if links[i].name == "" { continue; }
      TextsPushTwo(KeptForward(links[..i]), ["-i", links[i].name] + ACCEPT, ["-o", links[i].name] + ACCEPT);
      out := out + {Join(["-i", links[i].name] + ACCEPT, " ")};
      out := out + {Join(["-o", links[i].name] + ACCEPT, " ")};
    }
    assert links[..|links|] == links;
  }

  lemma KeptPush(cfgs: seq<Config>, c: Config)
    ensures KeptInput(cfgs + [c]) == if c.name != "" then KeptInput(cfgs) + {["-i", c.name] + ACCEPT}
            else KeptInput(cfgs)
    ensures KeptForward(cfgs + [c])
            == if c.name != "" then KeptForward(cfgs) + {["-i", c.name] + ACCEPT, ["-o", c.name] + ACCEPT}
                else KeptForward(cfgs)
  {
    NamesPush(cfgs, c);
    hide LinkNames;
  }

  lemma NamesPush(cfgs: seq<Config>, c: Config)
    ensures LinkNames(cfgs + [c]) == LinkNames(cfgs) + if c.name != "" then {c.name} else {}
  {
    assert forall i | 0 <= i < |cfgs| :: (cfgs + [c])[i] == cfgs[i];
    assert (cfgs + [c])[|cfgs|] == c;
  }

  /** The self-check removes surplus copies of the managed rules. */
  method SelfCheck(h: Kernel, links: seq<Config>)
    requires PlainNames(links)
    modifies h`rules, h`disruptions
    ensures forall r :: h.rules[r] == if links != [] && Managed(links, r) then AtMostOne(old(h.rules)[r])
            else old(h.rules)[r]
    ensures (forall r | Managed(links, r) :: old(h.rules)[r] <= 1) ==> h.disruptions == old(h.disruptions)
  {
    hide Texts, KeptInput, KeptForward, AllPlain;
    if |links| == 0 { return; }
    KeptArePlain(links);
    var input := ManagedInputRules(links);
    var forwards := ManagedForwardRules(links);
    assert IsToken("INPUT") && IsToken("FORWARD");
    var n := DedupeRules(h, "INPUT", input, KeptInput(links));
    var m := DedupeRules(h, "FORWARD", forwards, KeptForward(links));
    assert "INPUT"[0] == 'I' && "FORWARD"[0] == 'F';
  }

  method RemoveLinks(h: Kernel, names: seq<string>)
    requires "" !in names
    modifies h`links, h`routes, h`rules, h`disruptions
    ensures Wires(h.links, h.routes) == RemoveAll(Wires(old(h.links), old(h.routes)), names)
    ensures forall r :: h.rules[r] == Monus(old(h.rules)[r], FORGET * Forgotten(names, r))
    ensures names == [] ==> h.disruptions == old(h.disruptions)
  {
    hide LinkRules, FlushDevice;
    for i := 0 to |names|
      invariant Wires(h.links, h.routes) == RemoveAll(Wires(old(h.links), old(h.routes)), names[..i])
      invariant forall r :: h.rules[r] == Monus(old(h.rules)[r], FORGET * Forgotten(names[..i], r))
      invariant i == 0 ==> h.disruptions == old(h.disruptions)
    {
      assert names[..i + 1][..i] == names[..i];
      assert names[i] in names;
      Remove(h, names[i]);
    }
    assert names[..|names|] == names;
  }

  method DeleteStale(h: Kernel, specs: seq<string>)
    modifies h`routes, h`disruptions
    ensures h.routes == DeleteSpecs(old(h.routes), specs)
    ensures specs == [] ==> h.disruptions == old(h.disruptions)
  {
    hide Fields, RoutesWithout;
    for i := 0 to |specs|
      invariant h.routes == DeleteSpecs(old(h.routes), specs[..i])
      invariant i == 0 ==> h.disruptions == old(h.disruptions)
    {
      assert specs[..i + 1][..i] == specs[..i];
      h.RouteDel(Fields(specs[i]));
    }
    assert specs[..|specs|] == specs;
  }

  /** What ensuring the links in turn deletes, flushes or overwrites. */
  function Disturbs(w: Wires, src: LinkView, cfgs: seq<Config>): nat {
    if cfgs == [] then 0
    else
      var init, last := cfgs[..|cfgs| - 1], cfgs[|cfgs| - 1];
      var mid := EnsureAll(w, src, init);
      Disturbs(w, src, init) + EnsureDisturbs(mid.links, mid.routes, src, last)
  }

  method EnsureLinks(h: Kernel, cfgs: seq<Config>)
    modifies h`links, h`routes, h`rules, h`disruptions
    ensures Wires(h.links, h.routes) == EnsureAll(Wires(old(h.links), old(h.routes)), h.view, cfgs)
    ensures forall r :: h.rules[r] == Step(old(h.rules)[r], Touch(0, Needed(cfgs, r)))
    ensures h.disruptions == old(h.disruptions) + Disturbs(Wires(old(h.links), old(h.routes)), h.view, cfgs)
  {
    hide EnsuredLinks, EnsuredRoutes, EnsureDisturbs, Applicable, AllowedRules;
    ghost var w := Wires(h.links, h.routes);
    for i := 0 to |cfgs|
      invariant Wires(h.links, h.routes) == EnsureAll(w, h.view, cfgs[..i])
      invariant forall r :: h.rules[r] == Step(old(h.rules)[r], Touch(0, Needed(cfgs[..i], r)))
      invariant h.disruptions == old(h.disruptions) + Disturbs(w, h.view, cfgs[..i])
    {
      assert cfgs[..i + 1][..i] == cfgs[..i];
      forall r { NeededPush(cfgs, i, r); }
      Ensure(h, cfgs[i]);
    }
    assert cfgs[..|cfgs|] == cfgs;
  }

  lemma NeededPush(cfgs: seq<Config>, i: nat, r: Rule)
    requires i < |cfgs|
    ensures Needed(cfgs[..i + 1], r) <==> Needed(cfgs[..i], r) || (Applicable(cfgs[i]) && r in AllowedRules(cfgs[i]))
  {
    hide Applicable, AllowedRules;
    assert forall j | 0 <= j < i :: cfgs[..i + 1][j] == cfgs[..i][j];
  }

  lemma {:induction false} NamedNeeds(cfgs: seq<Config>, r: Rule)
    ensures Needed(Named(cfgs), r) <==> Needed(cfgs, r)
  {
    hide AllowedRules, Kind;
    if cfgs != [] {
      var init, last := cfgs[..|cfgs| - 1], cfgs[|cfgs| - 1];
      NamedNeeds(init, r);
      assert cfgs == cfgs[..|cfgs|];
      NeededPush(cfgs, |cfgs| - 1, r);
      if last.name != "" {
        assert Named(cfgs)[..|Named(cfgs)| - 1] == Named(init) && Named(cfgs) == Named(cfgs)[..|Named(cfgs)|];
        NeededPush(Named(cfgs), |Named(cfgs)| - 1, r);
      }
    }
  }

  lemma {:induction false} RemoveListNamed(prev: seq<Config>, next: seq<Config>)
    ensures "" !in RemoveList(prev, next)
  {
    if prev != [] { RemoveListNamed(prev[..|prev| - 1], next); }
  }

  /** The pass has nothing to remove: no link, no stale route, no surplus copy of a managed rule. */
  ghost predicate NothingToRemove(rules: multiset<Rule>, prev: seq<Config>, next: seq<Config>) {
    && RemoveList(prev, next) == [] && StaleList(prev, next) == []
    && forall r | Managed(next, r) :: rules[r] <= 1
  }

  method Reconcile(h: Kernel, prev: seq<Config>, next: seq<Config>)
    requires PlainNames(next)
    modifies h`links, h`routes, h`rules, h`disruptions
    ensures Wires(h.links, h.routes) == Reconciled(Wires(old(h.links), old(h.routes)), h.view, prev, next)
    ensures forall r :: h.rules[r] == CopiesAfter(prev, next, r, old(h.rules)[r])
    ensures NothingToRemove(old(h.rules), prev, next) ==>
              h.disruptions == old(h.disruptions) + Disturbs(Wires(old(h.links), old(h.routes)), h.view, Named(next))
  {
    hide RemoveList, StaleList, Named, Needed, Forgotten, Managed, RemoveAll, DeleteSpecs, EnsureAll, Disturbs;
    var remove, ensure := Plan(prev, next);
    RemoveListNamed(prev, next);
    RemoveLinks(h, remove);
    var stale := StaleRoutes(prev, next);
    DeleteStale(h, stale);
    forall r { NamedNeeds(next, r); }
    EnsureLinks(h, ensure);
    SelfCheck(h, next);
    NoRemoval(Wires(old(h.links), old(h.routes)));
  }

  lemma NoRemoval(w: Wires)
    ensures RemoveAll(w, []) == w && DeleteSpecs(w.routes, []) == w.routes
    ensures forall r :: Forgotten([], r) == 0
  {
  }
}
