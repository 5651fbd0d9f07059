/** wg/nat.go: masquerading and forwarding rules of one interface. */
module Nat {
  import opened Text
  import opened Host
  import opened Types
  import opened Counts

  const FORWARD_BACK := ["-m", "state", "--state", "RELATED,ESTABLISHED", "-j", "ACCEPT"]

  function PostRule(subnet: string, egress: string, snat: string): Rule {
    Rule("nat", "POSTROUTING",
         ["-s", subnet, "-o", egress] + if snat != "" then ["-j", "SNAT", "--to-source", snat]
             else ["-j", "MASQUERADE"])
  }

  function ForwardOut(device: string, egress: string): Rule {
    Rule("", "FORWARD", ["-i", device, "-o", egress, "-j", "ACCEPT"])
  }

  function ForwardBack(device: string, egress: string): Rule {
    Rule("", "FORWARD", ["-i", egress, "-o", device] + FORWARD_BACK)
  }

  function NatRules(subnets: seq<string>, device: string, egress: string, snat: string): seq<Rule> {
    seq(|subnets|, i requires 0 <= i < |subnets| => PostRule(subnets[i], egress, snat))
    + [ForwardOut(device, egress), ForwardBack(device, egress)]
  }

  predicate NatEnabled(iface: Interface) {
    iface.masquerade || TrimSpace(iface.egress) != "" || TrimSpace(iface.natSubnets) != ""
  }

  predicate NatParamsDiffer(a: Interface, b: Interface) {
    a.masquerade != b.masquerade || a.egress != b.egress || a.natSubnets != b.natSubnets || a.address != b.address
  }

  function SubnetFor(net: Net, address: string): Option<string> {
    net.parseCIDR(TrimSpace(address))
  }

  /** A custom subnet the operator listed, trimmed. */
  predicate CustomPart(iface: Interface, part: string) {
    part != "" && exists p | p in Split(iface.natSubnets, ',') :: TrimSpace(p) == part
  }

  /** Every listed subnet parses; without any, the tunnel address does. */
  ghost predicate SourcesOk(net: Net, iface: Interface) {
    && (forall part :: CustomPart(iface, part) ==> SubnetFor(net, part).Some?)
    && ((exists part :: CustomPart(iface, part)) || SubnetFor(net, iface.address).Some?)
  }

  /** s is masqueraded: a listed subnet, or the tunnel subnet when none is listed. */
  ghost predicate IsSource(net: Net, iface: Interface, s: string) {
    if exists part :: CustomPart(iface, part)
    then exists part :: CustomPart(iface, part) && SubnetFor(net, part) == Some(s)
    else SubnetFor(net, iface.address) == Some(s)
  }

  ghost predicate NoDuplicates<T>(s: seq<T>) {
    forall i, j | 0 <= i < j < |s| :: s[i] != s[j]
  }

  /** Some non-blank part among the first n parses to subnet s. */
  ghost predicate Listed(net: Net, parts: seq<string>, n: nat, s: string)
    requires n <= |parts|
  {
    exists k | 0 <= k < n :: TrimSpace(parts[k]) != "" && SubnetFor(net, TrimSpace(parts[k])) == Some(s)
  }

  /** The listed subnets in normal form, each one once; None when one does not parse. */
  method CustomSubnets(net: Net, parts: seq<string>) returns (custom: Option<seq<string>>)
    ensures custom.None? <==>
              exists k | 0 <= k < |parts| :: TrimSpace(parts[k]) != ""
                && SubnetFor(net, TrimSpace(parts[k])).None?
    ensures custom.Some? ==> NoDuplicates(custom.value) && forall s :: s in custom.value <==>
            Listed(net, parts, |parts|, s)
  {
    hide TrimSpace, SubnetFor;
    var subnets: seq<string> := [];
    var seen: set<string> := {};
    for i := 0 to |parts|
      invariant forall s :: s in seen <==> s in subnets
      invariant NoDuplicates(subnets)
      invariant forall k | 0 <= k < i :: TrimSpace(parts[k]) != "" ==> SubnetFor(net, TrimSpace(parts[k])).Some?
      invariant forall s :: s in subnets <==> Listed(net, parts, i, s)
    {
      var part := TrimSpace(parts[i]);
      assert forall s :: Listed(net, parts, i + 1, s) <==>
          Listed(net, parts, i, s)
          || (part != "" && SubnetFor(net, part) == Some(s));
      if part == "" { continue; }
      var norm := SubnetFor(net, part);
      if norm.None? { return None; }
      if norm.value in seen { continue; }
      seen := seen + {norm.value};
      assert forall s :: s in subnets + [norm.value] <==> s in subnets || s == norm.value;
      subnets := subnets + [norm.value];
    }
    return Some(subnets);
  }

  lemma PartsOf(net: Net, iface: Interface)
    ensures var parts := Split(iface.natSubnets, ',');
            && (forall part :: CustomPart(iface, part) <==>
                exists k | 0 <= k < |parts| :: TrimSpace(parts[k]) != ""
                  && TrimSpace(parts[k]) == part)
            && (forall s :: Listed(net, parts, |parts|, s) <==>
                exists part :: CustomPart(iface, part)
                  && SubnetFor(net, part) == Some(s))
  {
    hide TrimSpace, SubnetFor, Split;
    var parts := Split(iface.natSubnets, ',');
    forall s | Listed(net, parts, |parts|, s) ensures
        exists part :: CustomPart(iface, part)
          && SubnetFor(net, part) == Some(s) {
      var k :| 0 <= k < |parts| && TrimSpace(parts[k]) != "" && SubnetFor(net, TrimSpace(parts[k])) == Some(s);
      assert CustomPart(iface, TrimSpace(parts[k]));
    }
  }

  method NatSources(net: Net, iface: Interface) returns (subnets: Option<seq<string>>)
    ensures subnets.Some? <==> SourcesOk(net, iface)
    ensures subnets.Some? ==> NoDuplicates(subnets.value) && forall s :: s in subnets.value <==> IsSource(net, iface, s)
  {
    hide TrimSpace, SubnetFor, Split, CustomPart;
    PartsOf(net, iface);
    var custom := CustomSubnets(net, Split(iface.natSubnets, ','));
    if custom.None? { return None; }
    if |custom.value| > 0 {
      assert custom.value[0] in custom.value;
      return custom;
    }
    assert forall part :: CustomPart(iface, part) ==>
        SubnetFor(net, part).None?
        || SubnetFor(net, part).value in custom.value;
    var tunnel := SubnetFor(net, iface.address);
    return if tunnel.Some? then Some([tunnel.value]) else None;
  }

  /** The device to leave through and the address to SNAT to ("" for masquerading). */
  function ResolveEgress(net: Net, spec: string): Option<(string, string)> {
    var s := TrimSpace(spec);
    if s == "" then
      if net.defaultEgress.Some? then Some((net.defaultEgress.value, "")) else None
    else if net.isIP(s) then
      if net.ownerOf(s).Some? then Some((net.ownerOf(s).value, s)) else None
    else Some((s, ""))
  }

  /** r is one of the rules the agent computes for iface (whether or not NAT is on). */
  ghost predicate Owns(net: Net, iface: Interface, r: Rule) {
    && SourcesOk(net, iface)
    && ResolveEgress(net, iface.egress).Some?
    && var (egress, snat) := ResolveEgress(net, iface.egress).value;
       || (exists s :: IsSource(net, iface, s) && r == PostRule(s, egress, snat))
       || r == ForwardOut(iface.name, egress)
       || r == ForwardBack(iface.name, egress)
  }

  ghost predicate Clears(net: Net, iface: Interface, r: Rule) {
    Owns(net, iface, r) && ResolveEgress(net, iface.egress).value.0 != ""
  }

  lemma NatRulesOwned(net: Net, iface: Interface, subnets: seq<string>)
    requires SourcesOk(net, iface) && NoDuplicates(subnets)
    requires forall s :: s in subnets <==> IsSource(net, iface, s)
    requires ResolveEgress(net, iface.egress).Some?
    ensures var (egress, snat) := ResolveEgress(net, iface.egress).value;
            var rules := NatRules(subnets, iface.name, egress, snat);
            NoDuplicates(rules) && forall r :: r in rules <==> Owns(net, iface, r)
  {
    var (egress, snat) := ResolveEgress(net, iface.egress).value;
    var rules := NatRules(subnets, iface.name, egress, snat);
    forall r | Owns(net, iface, r) ensures r in rules {
      if r == ForwardOut(iface.name, egress) {
        assert r == rules[|subnets|];
      } else if r == ForwardBack(iface.name, egress) {
        assert r == rules[|subnets| + 1];
      } else {
        var s :| IsSource(net, iface, s) && r == PostRule(s, egress, snat);
        var i :| 0 <= i < |subnets| && subnets[i] == s;
        assert r == rules[i];
      }
    }
    forall i | 0 <= i < |subnets| ensures Owns(net, iface, rules[i]) {
      assert subnets[i] in subnets;
    }
    assert NoDuplicates(rules) by {
      forall i, j | 0 <= i < j < |rules| ensures rules[i] != rules[j] {
        if j < |subnets| {
          assert rules[i].args[1] == subnets[i] && rules[j].args[1] == subnets[j];
        } else {
          assert |ForwardOut(iface.name, egress).args| != |ForwardBack(iface.name, egress).args|;
        }
      }
    }
  }

  method EnsureRule(h: Kernel, r: Rule)
    modifies h`rules
    ensures h.rules == old(h.rules) + if r in old(h.rules) then multiset{} else multiset{r}
  {
    var present := h.CheckRule(r);
    if present { return; }
    h.AddRule(r);
  }

  method DropRule(h: Kernel, r: Rule)
    modifies h`rules, h`disruptions
    ensures h.rules == old(h.rules) - multiset{r}
    ensures h.disruptions == old(h.disruptions) + if r in old(h.rules) then 1 else 0
  {
    var present := h.CheckRule(r);
    if !present { return; }
    var _ := h.DeleteRule(r);
  }

  /** The -C/-A loop over a list of rules. */
  method EnsureRules(h: Kernel, rules: seq<Rule>)
    modifies h`rules
    ensures forall r :: h.rules[r] == Step(old(h.rules)[r], Touch(0, r in rules))
  {
    for i := 0 to |rules|
      invariant forall r :: h.rules[r] == Step(old(h.rules)[r], Touch(0, r in rules[..i]))
    {
      EnsureRule(h, rules[i]);
    }
    assert rules[..|rules|] == rules;
  }

  /** The -C/-D loop over a list of rules: a rule listed twice loses two copies. */
  method DropRules(h: Kernel, rules: seq<Rule>)
    modifies h`rules, h`disruptions
    ensures h.rules == old(h.rules) - multiset(rules)
    ensures (forall r | r in rules :: r !in old(h.rules)) ==> h.disruptions == old(h.disruptions)
  {
    for i := 0 to |rules|
      invariant h.rules == old(h.rules) - multiset(rules[..i])
      invariant (forall r | r in rules :: r !in old(h.rules)) ==> h.disruptions == old(h.disruptions)
    {
      assert rules[..i + 1] == rules[..i] + [rules[i]] && rules[i] in rules;
      MonusTwice(old(h.rules), rules[..i], [rules[i]]);
      DropRule(h, rules[i]);
    }
    assert rules[..|rules|] == rules;
  }

  lemma {:induction false} NoDuplicatesCount<T>(s: seq<T>, x: T)
    requires NoDuplicates(s)
    ensures multiset(s)[x] == if x in s then 1 else 0
  {
    if s != [] {
      var init := s[..|s| - 1];
      assert s == init + [s[|s| - 1]];
      NoDuplicatesCount(init, x);
      assert s[|s| - 1] !in init;
    }
  }

  /** Installs the rules of iface: each one that is missing is added once, nothing else changes. */
  method SetupNat(h: Kernel, net: Net, iface: Interface) returns (ok: bool)
    modifies h`rules
    ensures ok <==> SourcesOk(net, iface) && ResolveEgress(net, iface.egress).Some?
    ensures forall r :: h.rules[r] == Step(old(h.rules)[r], Touch(0, Owns(net, iface, r)))
  {
    var subnets := NatSources(net, iface);
    if subnets.None? { return false; }
    var egress := ResolveEgress(net, iface.egress);
    if egress.None? { return false; }
    var rules := NatRules(subnets.value, iface.name, egress.value.0, egress.value.1);
    NatRulesOwned(net, iface, subnets.value);
    EnsureRules(h, rules);
    ok := true;
  }

  /** Removes one copy of each rule of iface. */
  method TeardownNat(h: Kernel, net: Net, iface: Interface)
    modifies h`rules, h`disruptions
    ensures forall r :: h.rules[r] == Monus(old(h.rules)[r], if Clears(net, iface, r) then 1 else 0)
    ensures (forall r | Clears(net, iface, r) :: r !in old(h.rules)) ==> h.disruptions == old(h.disruptions)
  {
    var subnets := NatSources(net, iface);
    if subnets.None? { return; }
    var egress := ResolveEgress(net, iface.egress);
    if egress.None? || egress.value.0 == "" { return; }
    var rules := NatRules(subnets.value, iface.name, egress.value.0, egress.value.1);
    NatRulesOwned(net, iface, subnets.value);
    forall r { NoDuplicatesCount(rules, r); }
    DropRules(h, rules);
  }

  /** The old rules are torn down first, with the old parameters. */
  predicate Torn(before: Interface, after: Interface) {
    NatEnabled(before) && (!NatEnabled(after) || NatParamsDiffer(before, after))
  }

  ghost predicate Wants(net: Net, iface: Interface, r: Rule) {
    NatEnabled(iface) && Owns(net, iface, r)
  }

  /** What ReconcileNat does to the copies of r. */
  ghost function NatTouch(net: Net, before: Interface, after: Interface, r: Rule): Touch {
    Touch(if Torn(before, after) && Clears(net, before, r) then 1 else 0, Wants(net, after, r))
  }

  ghost function TeardownTouch(net: Net, iface: Interface, r: Rule): Touch {
    Touch(if Clears(net, iface, r) then 1 else 0, false)
  }

  method ReconcileNat(h: Kernel, net: Net, before: Interface, after: Interface) returns (ok: bool)
    modifies h`rules, h`disruptions
    ensures forall r :: h.rules[r] == Step(old(h.rules)[r], NatTouch(net, before, after, r))
    ensures ok <==> NatEnabled(after) ==> SourcesOk(net, after) && ResolveEgress(net, after.egress).Some?
  {
    if NatEnabled(before) && (!NatEnabled(after) || NatParamsDiffer(before, after)) {
      TeardownNat(h, net, before);
    }
    ok := true;
    if NatEnabled(after) {
      ok := SetupNat(h, net, after);
    }
  }

  /** A resolved egress device always has a name. */
  lemma EgressHasName(net: Net, iface: Interface, r: Rule)
    requires net.Valid() && Owns(net, iface, r)
    ensures Clears(net, iface, r)
  {
  }

  lemma SameParamsSameRules(net: Net, a: Interface, b: Interface, r: Rule)
    requires a.name == b.name && !NatParamsDiffer(a, b)
    ensures Owns(net, a, r) <==> Owns(net, b, r)
  {
    assert forall part :: CustomPart(a, part) <==> CustomPart(b, part);
    assert forall s :: IsSource(net, a, s) <==> IsSource(net, b, s);
  }

  /** A rule installed for an interface under its previous parameters and no longer wanted by it is
      always torn down: turning NAT off or changing a parameter never leaves a rule behind. */
  lemma DroppedRuleIsTorn(net: Net, before: Interface, after: Interface, r: Rule)
    requires net.Valid() && before.name == after.name
    requires Wants(net, before, r) && !Wants(net, after, r)
    ensures NatTouch(net, before, after, r) == Touch(1, false)
  {
    hide Owns;
    EgressHasName(net, before, r);
    if !NatParamsDiffer(before, after) {
      SameParamsSameRules(net, before, after, r);
    }
  }
}
