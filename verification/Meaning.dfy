/** What a configuration means, field by field and word by word, and that the reconcilers do exactly that. The
    predicates here share nothing with the code they are about but the string helpers. */
module Meaning {
  import opened Text
  import opened Host
  import opened Types
  import opened Counts
  import Nat
  import Policy

  // ---- masquerading (wg/nat.go) -----------------------------------------------------------------

  /** NAT is on: by its switch, or because an egress or subnets are written down. */
  ghost predicate SwitchedOn(i: Interface) {
    i.masquerade || HasWord(i.egress) || HasWord(i.natSubnets)
  }

  /** One part of a comma-separated list that holds something, trimmed. */
  ghost predicate Item(list: string, part: string) {
    exists p :: p in Split(list, ',') && HasWord(p) && part == TrimSpace(p)
  }

  /** Traffic leaves through this device: the default one, the owner of the address that is written down, or the
      device that is; an address is also what the traffic is translated to. */
  ghost predicate Leaves(net: Net, spec: string, device: string, snat: string) {
    if !HasWord(spec) then net.defaultEgress == Some(device) && snat == ""
    else if net.isIP(TrimSpace(spec)) then net.ownerOf(TrimSpace(spec)) == Some(device) && snat == TrimSpace(spec)
    else device == TrimSpace(spec) && snat == ""
  }

  /** Subnet s is masqueraded: one that is listed, or that of the tunnel when none is. */
  ghost predicate Masqueraded(net: Net, i: Interface, s: string) {
    if exists part :: Item(i.natSubnets, part)
    then exists part :: Item(i.natSubnets, part) && net.parseCIDR(part) == Some(s)
    else net.parseCIDR(TrimSpace(i.address)) == Some(s)
  }

  /** All of them can be read, and there is one. */
  ghost predicate Readable(net: Net, i: Interface) {
    && (forall part | Item(i.natSubnets, part) :: net.parseCIDR(part).Some?)
    && exists s :: Masqueraded(net, i, s)
  }

  ghost predicate NatRuleThrough(net: Net, i: Interface, r: Rule, device: string, snat: string) {
    || r == Rule("", "FORWARD", ["-i", i.name, "-o", device, "-j", "ACCEPT"])
    || r == Rule("", "FORWARD", ["-i", device, "-o", i.name, "-m", "state", "--state", "RELATED,ESTABLISHED", "-j",
                                 "ACCEPT"])
    || exists s :: Masqueraded(net, i, s)
                   && r == Rule("nat", "POSTROUTING",
                                if snat == "" then ["-s", s, "-o", device, "-j", "MASQUERADE"]
                                else ["-s", s, "-o", device, "-j", "SNAT", "--to-source", snat])
  }

  /** r is one of the masquerading and forwarding rules of the interface. */
  ghost predicate Computes(net: Net, i: Interface, r: Rule) {
    && Readable(net, i)
    && exists device, snat :: Leaves(net, i.egress, device, snat) && NatRuleThrough(net, i, r, device, snat)
  }

  /** The interface asks for r as a NAT rule. */
  ghost predicate NatAsked(net: Net, i: Interface, r: Rule) { SwitchedOn(i) && Computes(net, i, r) }

  lemma ItemIff(i: Interface, part: string)
    ensures Item(i.natSubnets, part) <==> Nat.CustomPart(i, part)
    ensures Item(i.natSubnets, part) ==> TrimSpace(part) == part
  {
    hide TrimSpace, Split, HasWord;
    forall p ensures (TrimSpace(p) != "" <==> HasWord(p)) && TrimSpace(TrimSpace(p)) == TrimSpace(p) {
      TrimmedIff(p);
      TrimTwice(p);
    }
  }

  lemma MasqueradedIff(net: Net, i: Interface, s: string)
    ensures Masqueraded(net, i, s) <==> Nat.IsSource(net, i, s)
  {
    hide TrimSpace, Split, Item, Nat.CustomPart;
    forall part ensures Item(i.natSubnets, part) <==> Nat.CustomPart(i, part)
      ensures Item(i.natSubnets, part) ==> TrimSpace(part) == part { ItemIff(i, part); }
  }

  lemma ReadableIff(net: Net, i: Interface)
    ensures Readable(net, i) <==> Nat.SourcesOk(net, i)
  {
    hide TrimSpace, Split, Item, Nat.CustomPart;
    forall part ensures Item(i.natSubnets, part) <==> Nat.CustomPart(i, part)
      ensures Item(i.natSubnets, part) ==> TrimSpace(part) == part { ItemIff(i, part); }
    if Nat.SourcesOk(net, i) {
      if part :| Item(i.natSubnets, part) {
        assert Masqueraded(net, i, net.parseCIDR(part).value);
      } else {
        assert Masqueraded(net, i, Nat.SubnetFor(net, i.address).value);
      }
    }
  }

  lemma LeavesIff(net: Net, spec: string, device: string, snat: string)
    ensures Leaves(net, spec, device, snat) <==> Nat.ResolveEgress(net, spec) == Some((device, snat))
  {
    hide TrimSpace;
    TrimmedIff(spec);
  }

  lemma RuleThroughIff(net: Net, i: Interface, r: Rule, device: string, snat: string)
    ensures NatRuleThrough(net, i, r, device, snat) <==>
              || (exists s :: Nat.IsSource(net, i, s) && r == Nat.PostRule(s, device, snat))
              || r == Nat.ForwardOut(i.name, device) || r == Nat.ForwardBack(i.name, device)
  {
    hide Masqueraded, Nat.IsSource;
    forall s ensures Masqueraded(net, i, s) <==> Nat.IsSource(net, i, s) { MasqueradedIff(net, i, s); }
    assert Nat.ForwardBack(i.name, device).args
        == ["-i", device, "-o", i.name, "-m", "state", "--state", "RELATED,ESTABLISHED", "-j", "ACCEPT"];
    forall s ensures Nat.PostRule(s, device, snat)
        == Rule("nat", "POSTROUTING", if snat == "" then ["-s", s, "-o", device, "-j", "MASQUERADE"]
                else ["-s", s, "-o", device, "-j", "SNAT", "--to-source", snat]) {
      assert ["-s", s, "-o", device] + ["-j", "MASQUERADE"] == ["-s", s, "-o", device, "-j", "MASQUERADE"];
      assert ["-s", s, "-o", device] + ["-j", "SNAT", "--to-source", snat]
          == ["-s", s, "-o", device, "-j", "SNAT", "--to-source", snat];
    }
  }

  /** The rules the code computes for an interface are these and no others. */
  lemma OwnsIff(net: Net, i: Interface, r: Rule)
    ensures Computes(net, i, r) <==> Nat.Owns(net, i, r)
  {
    hide Readable, Nat.SourcesOk, Leaves, Nat.ResolveEgress, NatRuleThrough, Nat.IsSource, Nat.PostRule,
         Nat.ForwardOut, Nat.ForwardBack;
    ReadableIff(net, i);
    if Nat.Owns(net, i, r) {
      var (device, snat) := Nat.ResolveEgress(net, i.egress).value;
      LeavesIff(net, i.egress, device, snat);
      RuleThroughIff(net, i, r, device, snat);
    }
    if Computes(net, i, r) {
      var device, snat :| Leaves(net, i.egress, device, snat) && NatRuleThrough(net, i, r, device, snat);
      LeavesIff(net, i.egress, device, snat);
      RuleThroughIff(net, i, r, device, snat);
    }
  }

  lemma EnabledIff(i: Interface)
    ensures SwitchedOn(i) <==> Nat.NatEnabled(i)
  {
    hide TrimSpace;
    TrimmedIff(i.egress);
    TrimmedIff(i.natSubnets);
  }

  /** What ensureNAT and the engine want of an interface is what it asks for. */
  lemma NatAskedIff(net: Net, i: Interface, r: Rule)
    ensures NatAsked(net, i, r) <==> Nat.Wants(net, i, r)
  {
    hide Computes, Nat.Owns, Nat.NatEnabled, SwitchedOn;
    OwnsIff(net, i, r);
    EnabledIff(i);
  }

  /** NAT switched on for an interface that was never applied: every rule it asks for is there, no other is. */
  lemma NatFromNothing(net: Net, i: Interface, r: Rule, c: nat)
    ensures Step(c, Nat.NatTouch(net, NO_INTERFACE, i, r)) == if NatAsked(net, i, r) then Max(1, c) else c
  {
    hide NatAsked, Nat.Wants, Nat.NatParamsDiffer, Nat.Clears;
    NatAskedIff(net, i, r);
    EnabledIff(NO_INTERFACE);
  }

  /** Any change of one interface, from at most one copy: what the new parameters ask for is there, what only the
      old ones asked for is gone, whichever of the switch, the egress, the subnets and the address changed,
      and nothing else moves unless an equal rule of the same interface was there before it was asked for. */
  lemma NatChanged(net: Net, before: Interface, after: Interface, r: Rule, c: nat)
    requires net.Valid() && before.name == after.name && c <= 1
    ensures Step(c, Nat.NatTouch(net, before, after, r))
            == if NatAsked(net, after, r) then 1 else if NatAsked(net, before, r) then 0 else c
  {
    hide NatAsked, Nat.Owns, Nat.NatParamsDiffer, Nat.NatEnabled;
    NatAskedIff(net, before, r);
    NatAskedIff(net, after, r);
    if Nat.Wants(net, before, r) && !Nat.Wants(net, after, r) { Nat.DroppedRuleIsTorn(net, before, after, r); }
  }

  /** In particular an interface with all three switched off has none of its rules left. */
  lemma NatSwitchedOff(net: Net, before: Interface, after: Interface, r: Rule, c: nat)
    requires net.Valid() && before.name == after.name && c <= 1
    requires !after.masquerade && !HasWord(after.egress) && !HasWord(after.natSubnets)
    ensures NatAsked(net, before, r) ==> Step(c, Nat.NatTouch(net, before, after, r)) == 0
  {
    hide Computes, HasWord;
    NatChanged(net, before, after, r, c);
  }

  /** Unchanged parameters delete nothing, not even to put it back. */
  lemma NatUnchanged(net: Net, before: Interface, after: Interface, r: Rule)
    requires before.masquerade == after.masquerade && before.egress == after.egress
             && before.natSubnets == after.natSubnets && before.address == after.address
    ensures Nat.NatTouch(net, before, after, r).drops == 0
  {
    hide TrimSpace, Nat.Owns;
  }

  // ---- policy lines (wg/policy.go) --------------------------------------------------------------

  /** The words of a line of the text that is meant. */
  ghost predicate LineOf(text: string, f: Argv) {
    exists line :: line in Split(text, '\n') && Meant(line) && f == Fields(line)
  }

  /** Word s follows a "from" on some line. */
  ghost predicate ComesFrom(text: string, s: string) {
    exists f, i: nat :: LineOf(text, f) && i + 1 < |f| && f[i] == "from" && f[i + 1] == s
  }

  /** The text opens the firewall with r: for what comes from some subnet, and for the answers to it. */
  ghost predicate Opens(text: string, r: Rule) {
    exists s :: ComesFrom(text, s)
                && (|| r == Rule("", "FORWARD", ["-s", s, "-j", "ACCEPT"])
                    || r == Rule("", "FORWARD", ["-d", s, "-m", "state", "--state", "RELATED,ESTABLISHED", "-j",
                                                 "ACCEPT"]))
  }

  ghost predicate AddOrDel(w: string) { w == "add" || w == "del" }

  /** The `ip` command whose first add/del word, at i, is read as "add" is k. */
  ghost predicate CommandFor(f: Argv, i: nat, k: Argv) {
    && 1 <= i < |f| && f[0] == "ip" && AddOrDel(f[i]) && (forall j | 1 <= j < i :: !AddOrDel(f[j]))
    && k == f[i := "add"][1..]
  }

  /** Some line of the text is about entry k. */
  ghost predicate Installs(text: string, k: Argv) {
    exists f, i: nat :: LineOf(text, f) && CommandFor(f, i, k)
  }

  lemma PolicyLineIff(text: string, f: Argv)
    ensures LineOf(text, f) <==> exists ln :: ln in Policy.PolicyLines(text) && f == Fields(ln)
  {
    hide TrimSpace, Split, Fields, Kept, Meant;
    forall ln ensures ln in Policy.PolicyLines(text) <==>
                      exists line :: line in Split(text, '\n') && Meant(line) && ln == TrimSpace(line) {
      KeptMembers(Split(text, '\n'), ln);
    }
    forall s ensures Fields(TrimSpace(s)) == Fields(s) { TrimmedFields(s); }
    if line :| line in Split(text, '\n') && Meant(line) && f == Fields(line) {
      assert TrimSpace(line) in Policy.PolicyLines(text);
    }
  }

  lemma {:induction false} FromWordsIff(f: Argv, n: nat, s: string)
    requires n <= |f|
    ensures s in Policy.FromWords(f, n) <==> exists i: nat :: i < n && i + 1 < |f| && f[i] == "from" && f[i + 1] == s
  {
    if n > 0 {
      FromWordsIff(f, n - 1, s);
      if n < |f| && f[n - 1] == "from" && f[n] == s {
        var i := n - 1;
        assert i < n && f[i] == "from" && f[i + 1] == s;
      }
    }
  }

  ghost predicate FollowsFrom(f: Argv, s: string) {
    exists i: nat :: i + 1 < |f| && f[i] == "from" && f[i + 1] == s
  }

  lemma {:induction false} SubnetsIff(lines: seq<string>, s: string)
    ensures s in Policy.FromSubnets(lines) <==> exists ln :: ln in lines && FollowsFrom(Fields(ln), s)
  {
    hide Fields, FollowsFrom;
    if lines != [] {
      var init, last := lines[..|lines| - 1], lines[|lines| - 1];
      assert lines == init + [last];
      SubnetsIff(init, s);
      SubnetsPush(lines, s);
    }
  }

  lemma SubnetsPush(lines: seq<string>, s: string)
    requires lines != []
    ensures var init, last := lines[..|lines| - 1], lines[|lines| - 1];
            s in Policy.FromSubnets(lines) <==> s in Policy.FromSubnets(init) || FollowsFrom(Fields(last), s)
  {
    hide Fields, FollowsFrom, Policy.FromWords;
    LastFrom(Fields(lines[|lines| - 1]), s);
  }

  lemma LastFrom(f: Argv, s: string)
    ensures s in Policy.FromWords(f, |f|) <==> FollowsFrom(f, s)
  {
    FromWordsIff(f, |f|, s);
  }

  lemma ComesFromIff(text: string, s: string)
    ensures ComesFrom(text, s) <==> s in Policy.FromSubnets(Policy.PolicyLines(text))
  {
    hide Fields, Policy.PolicyLines, Policy.FromSubnets, LineOf;
    SubnetsIff(Policy.PolicyLines(text), s);
    if ln :| ln in Policy.PolicyLines(text) && FollowsFrom(Fields(ln), s) {
      PolicyLineIff(text, Fields(ln));
      assert LineOf(text, Fields(ln));
    }
    if f, i: nat :| LineOf(text, f) && i + 1 < |f| && f[i] == "from" && f[i + 1] == s { PolicyLineIff(text, f); }
  }

  /** The FORWARD rules the code takes from a text are these and no others. */
  lemma OpensIff(text: string, r: Rule)
    ensures Opens(text, r) <==> r in Policy.RulesOf(text)
  {
    hide Policy.FromSubnets, Policy.PolicyLines, ComesFrom;
    forall s ensures ComesFrom(text, s) <==> s in Policy.FromSubnets(Policy.PolicyLines(text)) {
      ComesFromIff(text, s);
    }
    Policy.ForwardRulesMembers(Policy.FromSubnets(Policy.PolicyLines(text)), r);
    forall s ensures Policy.AcceptBack(s).args
        == ["-d", s, "-m", "state", "--state", "RELATED,ESTABLISHED", "-j", "ACCEPT"] { }
  }

  lemma CommandRead(line: string, i: nat, k: Argv)
    requires CommandFor(Fields(line), i, k)
    ensures Policy.KeyOf(line) == Some(k)
  {
    hide Fields;
    var f := Fields(line);
    Policy.VerbIs(f[1..], i - 1);
    assert f[i := "add"][1..] == f[1..][i - 1 := "add"];
  }

  lemma ReadIsCommand(line: string) returns (i: nat)
    requires Policy.KeyOf(line).Some?
    ensures CommandFor(Fields(line), i, Policy.KeyOf(line).value)
  {
    hide Fields;
    var f := Fields(line);
    i := VerbAt(f[1..]) + 1;
    assert forall j | 1 <= j < i :: f[j] == f[1..][j - 1];
    assert f[i := "add"][1..] == f[1..][i - 1 := "add"];
  }

  /** The entries the code takes from a text are these and no others. */
  lemma InstallsIff(text: string, k: Argv)
    ensures Installs(text, k) <==> k in Policy.Keys(text)
  {
    hide Fields, Policy.PolicyLines, LineOf, CommandFor, Policy.KeyOf;
    Policy.KeysComeFromLines(Policy.PolicyLines(text), [], k);
    if ln :| ln in Policy.PolicyLines(text) && Policy.KeyOf(ln) == Some(k) {
      PolicyLineIff(text, Fields(ln));
      var i := ReadIsCommand(ln);
      assert LineOf(text, Fields(ln));
    }
    if f, i: nat :| LineOf(text, f) && CommandFor(f, i, k) {
      PolicyLineIff(text, f);
      var ln :| ln in Policy.PolicyLines(text) && f == Fields(ln);
      CommandRead(ln, i, k);
      assert ln !in [];
    }
  }

  /** Applying a text: what it opens or installs is there in at least one copy, the rest is as before. */
  lemma PolicyApplied(text: string, r: Rule, k: Argv, c: nat)
    ensures Step(c, Touch(0, r in Policy.RulesOf(text))) == if Opens(text, r) then Max(1, c) else c
    ensures Step(c, Touch(0, k in Policy.Keys(text))) == if Installs(text, k) then Max(1, c) else c
  {
    hide Opens, Installs, Policy.RulesOf, Policy.Keys;
    OpensIff(text, r);
    InstallsIff(text, k);
  }

  /** Replacing a text, from at most one copy: what the new text opens or installs is there, what only the old one
      did is gone, nothing else moves. */
  lemma PolicyChanged(before: string, after: string, r: Rule, k: Argv, c: nat)
    requires c <= 1
    ensures Step(c, Policy.PolicyRuleTouch(before, after, r))
            == if Opens(after, r) then 1 else if Opens(before, r) then 0 else c
    ensures Step(c, Policy.PolicyTouch(before, after, k))
            == if Installs(after, k) then 1 else if Installs(before, k) then 0 else c
  {
    hide Opens, Installs, Policy.RulesOf, Policy.Keys, Policy.StaleRules, Policy.KeysExcept, Policy.PolicyLines;
    OpensIff(before, r);
    OpensIff(after, r);
    InstallsIff(before, k);
    InstallsIff(after, k);
    Policy.DroppedForwardIsDeleted(before, after, r);
    Policy.DroppedEntryIsDeleted(before, after, k);
  }

  /** Removing a text takes one copy or more of what it opens and installs, and nothing else. */
  lemma PolicyRemoved(text: string, r: Rule, k: Argv, c: nat)
    requires c <= 1
    ensures Step(c, Policy.RemoveRuleTouch(text, r)) == if Opens(text, r) then 0 else c
    ensures Step(c, Policy.RemoveTouch(text, k)) == if Installs(text, k) then 0 else c
  {
    hide Opens, Installs, Policy.RulesOf, Policy.Keys;
    OpensIff(text, r);
    InstallsIff(text, k);
  }
}
