/** What an overlay link of the panel means, field by field, and that the passes of overlay/overlay.go build exactly
    that. */
module LinkMeaning {
  import opened Text
  import opened Host
  import opened Types
  import opened Counts
  import opened SyncEffects
  import OverlayLink
  import OverlayFirewall
  import Overlay
  import OverlayConvergence

  /** The link can be built: it has a name and an address, and a VXLAN link has a network identifier. */
  ghost predicate LinkAsked(c: LinkConfig) {
    c.name != "" && HasWord(c.local) && (c.kind == "ipip" || c.kind == "gre" || c.vni >= 1)
  }

  ghost function Set(value: string): Option<string> { if value != "" then Some(value) else None }

  ghost function SetNumber(n: int): Option<string> { if n > 0 then Some(ItoaInt(n)) else None }

  /** What the creation command says under a keyword. */
  ghost function Attribute(c: LinkConfig, key: string): Option<string> {
    if key == "remote" then Set(c.remote) else if key == "local" then Set(c.localIP)
    else if key == "dev" then Set(c.dev)
    else if key == "key" && c.kind == "gre" then SetNumber(c.key)
    else if key == "dstport" && c.kind != "ipip" && c.kind != "gre" then SetNumber(c.port)
    else None
  }

  /** The command that makes the link: a tunnel of the kind that is asked for, VXLAN for every other kind, with
      every field that is set under its keyword. */
  ghost predicate Makes(argv: Argv, c: LinkConfig) {
    if c.kind == "ipip" || c.kind == "gre" then
      && |argv| >= 5 && argv[..5] == ["tunnel", "add", c.name, "mode", c.kind]
      && forall key :: PairValue(argv[5..], key) == Attribute(c, key)
    else
      && |argv| >= 7 && argv[..7] == ["link", "add", c.name, "type", "vxlan", "id", ItoaInt(c.vni)]
      && forall key :: PairValue(argv[7..], key) == Attribute(c, key)
  }

  /** Room for the headers of the kind is taken off the MTU of the tunnel, unless the link has its own. */
  ghost function WantedMtu(c: LinkConfig): nat {
    var header := if c.kind == "ipip" then 20 else if c.kind == "gre" then 24 else 50;
    if c.mtu > 0 then c.mtu else if c.tunnelMTU > header then c.tunnelMTU - header else 0
  }

  /** The link is there, made by that command, up, with its address and MTU. */
  ghost predicate LinkMade(links: Overlay.Links, c: LinkConfig) {
    && c.name in links && Makes(links[c.name].argv, c)
    && links[c.name].up && links[c.name].mtu == WantedMtu(c) && links[c.name].addrs == {c.local}
  }

  /** A rule the link needs: the tunnel protocols, and traffic from and to the link. */
  ghost predicate NeedsRule(c: LinkConfig, r: Rule) {
    LinkAsked(c)
    && (|| r == Rule("", "INPUT", ["-p", "4", "-j", "ACCEPT"]) || r == Rule("", "INPUT", ["-p", "47", "-j", "ACCEPT"])
        || r == Rule("", "INPUT", ["-i", c.name, "-j", "ACCEPT"])
        || r == Rule("", "FORWARD", ["-i", c.name, "-j", "ACCEPT"])
        || r == Rule("", "FORWARD", ["-o", c.name, "-j", "ACCEPT"]))
  }

  ghost predicate RuleNeeded(cfgs: seq<LinkConfig>, r: Rule) { exists c :: c in cfgs && NeedsRule(c, r) }

  lemma AskedIff(c: LinkConfig)
    ensures LinkAsked(c) <==> Overlay.Applicable(c)
    ensures WantedMtu(c) == Overlay.LinkMTU(c)
  {
    hide TrimSpace;
    TrimmedIff(c.local);
  }

  lemma CommandMakes(c: LinkConfig)
    ensures Makes(OverlayLink.AddArgs(c), c)
  {
    hide PairValue, OverlayLink.AddArgs, OverlayLink.Opt, OverlayLink.OptNumber, ItoaInt;
    OverlayLink.Keywords();
    var argv := OverlayLink.AddArgs(c);
    if c.kind == "ipip" || c.kind == "gre" {
      TunnelCommand(c);
      forall key ensures PairValue(argv[5..], key) == Attribute(c, key) {
        OverlayLink.FourPairs("remote", c.remote, "local", c.localIP, "dev", c.dev, "key", OverlayLink.GreKey(c), key);
      }
    } else {
      VxlanCommand(c);
      forall key ensures PairValue(argv[7..], key) == Attribute(c, key) {
        OverlayLink.FourPairs("local", c.localIP, "remote", c.remote, "dev", c.dev, "dstport", c.port, key);
      }
    }
  }

  lemma TunnelCommand(c: LinkConfig)
    requires c.kind == "ipip" || c.kind == "gre"
    ensures var argv := OverlayLink.AddArgs(c);
            && |argv| >= 5 && argv[..5] == ["tunnel", "add", c.name, "mode", c.kind]
            && argv[5..] == OverlayLink.Opt("remote", c.remote) + OverlayLink.Opt("local", c.localIP)
                            + OverlayLink.Opt("dev", c.dev) + OverlayLink.OptNumber("key", OverlayLink.GreKey(c))
  {
    hide OverlayLink.Opt, OverlayLink.OptNumber;
    assert "ipip" != "vxlan" && "gre" != "vxlan" by { assert |"ipip"| == 4 && |"gre"| == 3 && |"vxlan"| == 5; }
    var tail := OverlayLink.Opt("remote", c.remote) + OverlayLink.Opt("local", c.localIP)
                + OverlayLink.Opt("dev", c.dev) + OverlayLink.OptNumber("key", OverlayLink.GreKey(c));
    assert OverlayLink.AddArgs(c) == ["tunnel", "add", c.name, "mode", c.kind] + tail;
  }

  lemma VxlanCommand(c: LinkConfig)
    requires c.kind != "ipip" && c.kind != "gre"
    ensures var argv := OverlayLink.AddArgs(c);
            && |argv| >= 7 && argv[..7] == ["link", "add", c.name, "type", "vxlan", "id", ItoaInt(c.vni)]
            && argv[7..] == OverlayLink.Opt("local", c.localIP) + OverlayLink.Opt("remote", c.remote)
                            + OverlayLink.Opt("dev", c.dev) + OverlayLink.OptNumber("dstport", c.port)
  {
    hide OverlayLink.Opt, OverlayLink.OptNumber, ItoaInt;
    var tail := OverlayLink.Opt("local", c.localIP) + OverlayLink.Opt("remote", c.remote)
                + OverlayLink.Opt("dev", c.dev) + OverlayLink.OptNumber("dstport", c.port);
    assert OverlayLink.AddArgs(c) == ["link", "add", c.name, "type", "vxlan", "id", ItoaInt(c.vni)] + tail;
  }

  lemma RulesIff(c: LinkConfig, r: Rule)
    ensures NeedsRule(c, r) <==> Overlay.Applicable(c) && r in Overlay.AllowedRules(c)
  {
    hide Overlay.Applicable, LinkAsked;
    AskedIff(c);
    assert forall a: Argv :: a == ["-p", "4"] || a == ["-p", "47"] || a == ["-i", c.name] || a == ["-o", c.name] ==>
        a + OverlayFirewall.ACCEPT == [a[0], a[1], "-j", "ACCEPT"];
    if LinkAsked(c) {
      assert OverlayFirewall.LinkRules(c.name) == [
          Rule("", "INPUT", ["-i", c.name, "-j", "ACCEPT"]), Rule("", "FORWARD", ["-i", c.name, "-j", "ACCEPT"]),
          Rule("", "FORWARD", ["-o", c.name, "-j", "ACCEPT"])] by { NamedIfAsked(c); }
    }
  }

  lemma NamedIfAsked(c: LinkConfig)
    requires LinkAsked(c)
    ensures c.name != ""
  {
  }

  /** The rules the passes need for a configuration are these and no others. */
  lemma RuleNeededIff(cfgs: seq<LinkConfig>, r: Rule)
    ensures RuleNeeded(cfgs, r) <==> Overlay.Needed(cfgs, r)
  {
    hide NeedsRule, Overlay.Applicable, Overlay.AllowedRules;
    forall c ensures NeedsRule(c, r) <==> Overlay.Applicable(c) && r in Overlay.AllowedRules(c) { RulesIff(c, r); }
    if c :| c in cfgs && NeedsRule(c, r) { var i :| 0 <= i < |cfgs| && cfgs[i] == c; }
  }

  lemma FreshIsMade(src: LinkView, links: Overlay.Links, c: LinkConfig)
    requires c.name in links && links[c.name] == Overlay.Configured(src, Overlay.Fresh(src, c), c)
    ensures LinkMade(links, c)
  {
    hide OverlayLink.AddArgs, Makes, Overlay.LinkMTU;
    AskedIff(c);
    CommandMakes(c);
  }

  lemma MadeAgain(src: LinkView, links: Overlay.Links, after: Overlay.Links, c: LinkConfig)
    requires LinkMade(links, c)
    requires c.name in after && after[c.name] == Overlay.Configured(src, Overlay.Built(links, src, c), c)
    ensures LinkMade(after, c)
  {
    hide OverlayLink.AddArgs, Makes, Overlay.LinkMTU, Overlay.Reusable;
    AskedIff(c);
    CommandMakes(c);
  }

  /** Ensuring one link on a host without it: it is there afterwards exactly when it can be built, whatever its
      kind, and then as it should be. */
  lemma EnsureMeans(w: Overlay.Wires, src: LinkView, c: LinkConfig)
    requires c.name !in w.links
    ensures c.name in Overlay.EnsureOne(w, src, c).links <==> LinkAsked(c)
    ensures LinkAsked(c) ==> LinkMade(Overlay.EnsureOne(w, src, c).links, c)
  {
    hide Overlay.Applicable, LinkAsked, LinkMade, Overlay.Configured, Overlay.EnsuredRoutes, OverlayLink.Matches,
         OverlayLink.Show, Overlay.Fresh;
    AskedIff(c);
    if LinkAsked(c) { FreshIsMade(src, Overlay.EnsureOne(w, src, c).links, c); }
  }

  /** What a pass makes of one of its links. */
  lemma PassGives(w: Overlay.Wires, src: LinkView, prev: seq<LinkConfig>, next: seq<LinkConfig>, c: LinkConfig)
    requires OverlayConvergence.DistinctLinks(next) && c in next && c.name != ""
    ensures var links := Overlay.Reconciled(w, src, prev, next).links;
            && (LinkAsked(c) ==>
                  && c.name in links
                  && links[c.name] == Overlay.Configured(src, Overlay.Built(w.links, src, c), c))
            && (!LinkAsked(c) ==>
                  && (c.name in links <==> c.name in w.links)
                  && (c.name in links ==> links[c.name] == w.links[c.name]))
  {
    hide Overlay.Applicable, LinkAsked, OverlayLink.Matches, OverlayLink.Show, OverlayLink.AddArgs, Overlay.LinkMTU,
         Overlay.RemoveAll, Overlay.EnsureAll, Overlay.Configured, Overlay.DeleteSpecs, Overlay.StaleList,
         Overlay.Named, Overlay.RemoveList, Overlay.Names, Overlay.Fresh;
    var removed := Overlay.RemoveAll(w, Overlay.RemoveList(prev, next));
    var start := Overlay.Wires(removed.links, Overlay.DeleteSpecs(removed.routes, Overlay.StaleList(prev, next)));
    AskedIff(c);
    OverlayConvergence.NamedFacts(next);
    OverlayConvergence.NameListed(next, c);
    OverlayConvergence.RemoveListMembers(prev, next, c.name);
    OverlayConvergence.RemoveAllGives(w, Overlay.RemoveList(prev, next), c.name);
    OverlayConvergence.EnsureAllGives(start, src, Overlay.Named(next), c.name);
    var i :| 0 <= i < |Overlay.Named(next)| && Overlay.Named(next)[i] == c;
  }

  /** One pass over a configuration that names a link the host does not have: it is there afterwards exactly when it
      can be built. */
  lemma PassMeans(w: Overlay.Wires, src: LinkView, prev: seq<LinkConfig>, next: seq<LinkConfig>, c: LinkConfig)
    requires OverlayConvergence.DistinctLinks(next) && c in next && c.name != "" && c.name !in w.links
    ensures var links := Overlay.Reconciled(w, src, prev, next).links;
            (c.name in links <==> LinkAsked(c)) && (LinkAsked(c) ==> LinkMade(links, c))
  {
    hide LinkAsked, LinkMade, Overlay.Reconciled, Overlay.Configured, Overlay.Fresh, OverlayLink.Matches,
         OverlayLink.Show;
    PassGives(w, src, prev, next, c);
    if LinkAsked(c) { FreshIsMade(src, Overlay.Reconciled(w, src, prev, next).links, c); }
  }

  /** And so it is after a whole sync, with one pass or with two. */
  lemma SyncMeans(w: Overlay.Wires, src: LinkView, x: ExtrasMap, ifaces: seq<Interface>, prev: seq<LinkConfig>,
                  next: seq<LinkConfig>, ok: bool, c: LinkConfig)
    requires OverlayConvergence.DistinctLinks(next) && c in next && c.name != "" && c.name !in w.links
    ensures var links := SyncWires(w, src, x, ifaces, prev, next, ok).links;
            (c.name in links <==> LinkAsked(c)) && (LinkAsked(c) ==> LinkMade(links, c))
  {
    hide LinkAsked, LinkMade, Overlay.Reconciled, Overlay.Configured, Overlay.Built, ExtrasRoutes;
    PassMeans(w, src, prev, next, c);
    var first := Overlay.Reconciled(w, src, prev, next);
    var custom := Overlay.Wires(first.links, ExtrasRoutes(first.routes, x, ifaces));
    if ok {
      PassGives(custom, src, prev, next, c);
      if LinkAsked(c) {
        MadeAgain(src, custom.links, Overlay.Reconciled(custom, src, prev, next).links, c);
      }
    }
  }

  /** Copies of a rule after one pass that starts from no links: what some link needs is there once. */
  lemma FirstPassRules(next: seq<LinkConfig>, r: Rule, c: nat)
    requires c <= 1
    ensures Overlay.CopiesAfter([], next, r, c) == if RuleNeeded(next, r) then 1 else c
  {
    hide Overlay.Managed, Overlay.Needed, RuleNeeded;
    RuleNeededIff(next, r);
  }

  ghost predicate PickedAt(cfgs: seq<LinkConfig>, at: seq<nat>, out: seq<LinkConfig>) {
    |at| == |out| && forall i | 0 <= i < |at| :: at[i] < |cfgs| && out[i] == cfgs[at[i]]
  }

  lemma PickedPush(cfgs: seq<LinkConfig>, at: seq<nat>, out: seq<LinkConfig>, n: nat)
    requires n < |cfgs| && PickedAt(cfgs, at, out) && Increasing(at) && forall i | 0 <= i < |at| :: at[i] < n
    ensures PickedAt(cfgs, at + [n], out + [cfgs[n]]) && Increasing(at + [n])
  {
  }

  lemma NamedPush(cfgs: seq<LinkConfig>, n: nat)
    requires n < |cfgs|
    ensures Overlay.Named(cfgs[..n + 1])
            == if cfgs[n].name != "" then Overlay.Named(cfgs[..n]) + [cfgs[n]] else Overlay.Named(cfgs[..n])
  {
    assert cfgs[..n + 1][..n] == cfgs[..n];
  }

  /** Which links are ensured: the named ones, all of them, in order. */
  lemma NamedPicks(cfgs: seq<LinkConfig>) returns (at: seq<nat>)
    ensures PickedAt(cfgs, at, Overlay.Named(cfgs)) && Increasing(at)
    ensures forall k: nat | k < |cfgs| :: k in at <==> cfgs[k].name != ""
  {
    hide Overlay.Named, PickedAt, Increasing;
    at := [];
    NothingNamed(cfgs);
    for n := 0 to |cfgs|
      invariant PickedAt(cfgs, at, Overlay.Named(cfgs[..n])) && Increasing(at)
      invariant forall i | 0 <= i < |at| :: at[i] < n
      invariant forall k: nat | k < n :: k in at <==> cfgs[k].name != ""
    {
      NamedPush(cfgs, n);
      if cfgs[n].name != "" {
        PickedPush(cfgs, at, Overlay.Named(cfgs[..n]), n);
        at := at + [n];
      }
    }
    assert cfgs[..|cfgs|] == cfgs;
  }

  lemma NothingNamed(cfgs: seq<LinkConfig>)
    ensures PickedAt(cfgs, [], Overlay.Named(cfgs[..0])) && Increasing([])
  {
  }
}
